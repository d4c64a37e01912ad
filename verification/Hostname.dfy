/**
  Canonical hosts and authorities: connector-lib/internal/hostname/hostname.go,
  connector-lib/capability/host.go and connector-lib/rawpipe/http.go.

  Parsing and printing of IP addresses, and lower-casing, belong to Go's
  libraries: they are a `Library` that keeps the laws below.
*/
module Hostname {
  import opened Wrappers
  import opened Strings

  /** An IPv4 or IPv6 address; only an IPv6 one may have a zone. */
  datatype Addr = Addr(v6: bool, bits: nat, zone: string)

  datatype Library = Library(parse: string -> Option<Addr>, text: Addr -> string, lower: string -> string)

  const MAPPED := 0xffff
  const TWO32 := 0x1_0000_0000

  predicate Is4In6(a: Addr) { a.v6 && a.bits / TWO32 == MAPPED }

  /** An IPv4-mapped address as the IPv4 address it stands for; any other as it is. */
  function Unmap(a: Addr): (r: Addr)
    ensures !Is4In6(r)
    ensures a.zone == "" ==> r.zone == ""
  {
    if Is4In6(a) then Addr(false, a.bits % TWO32, "") else a
  }

  predicate LowerChar(c: char) { 'a' <= c <= 'z' || '0' <= c <= '9' || c == '-' || c == '_' }

  predicate Digit(c: char) { '0' <= c <= '9' }

  predicate Digits(s: string) { forall c :: c in s ==> Digit(c) }

  function LastLabel(s: string): string {
    var labels := Split(s, '.');
    labels[|labels| - 1]
  }

  /** A zoneless address prints as it parses, without brackets; what parses is dotted decimal unless it holds a colon. */
  ghost predicate Lawful(lib: Library) {
    && (forall s :: lib.parse(s).Some? && !Has(s, ':') ==> Digits(LastLabel(s)))
    && (forall s :: lib.parse(s).Some? && lib.parse(s).value.zone == "" ==>
      && lib.parse(lib.text(Unmap(lib.parse(s).value))) == Some(Unmap(lib.parse(s).value))
      && !Has(lib.text(Unmap(lib.parse(s).value)), '[') && !Has(lib.text(Unmap(lib.parse(s).value)), ']'))
    && (forall s :: (forall c :: c in s ==> LowerChar(c) || c == '.') ==> lib.lower(s) == s)
  }

  // ---------- The canonical spelling ----------

  predicate HexDigit(c: char) { '0' <= c <= '9' || 'a' <= c <= 'f' }

  /** A label a URL parser reads as part of an IPv4 address. */
  predicate Numeric(l: string) {
    if |l| >= 2 && l[..2] == "0x" then forall c :: c in l[2..] ==> HexDigit(c)
    else Digits(l)
  }

  predicate ValidLabel(l: string) {
    l != "" && |l| <= 63 && forall c :: c in l ==> LowerChar(c)
  }

  function Canonical(lib: Library, host: string): Option<string> {
    match lib.parse(host)
    case Some(a) => if a.zone == "" then Some(lib.text(Unmap(a))) else None
    case None =>
      var h := TrimSuffix(lib.lower(host), '.');
      if h == "" || |h| > 253 then None
      else if exists l :: l in Split(h, '.') && !ValidLabel(l) then None
      else if Numeric(LastLabel(h)) then None
      else Some(h)
  }

  predicate IsCanonical(lib: Library, host: string) { Canonical(lib, host) == Some(host) }

  /** A host's name passed every check Canonical makes of a name. */
  ghost predicate GoodName(h: string) {
    h != "" && |h| <= 253 && (forall l :: l in Split(h, '.') ==> ValidLabel(l)) && !Numeric(LastLabel(h))
  }

  lemma {:induction false} LastOfJoin(parts: seq<string>, sep: char)
    requires parts != [] && parts[|parts| - 1] != ""
    ensures
      var joined, last := Join(parts, sep), parts[|parts| - 1];
      joined != "" && joined[|joined| - 1] == last[|last| - 1]
  {
    if |parts| > 1 {
      LastOfJoin(parts[1..], sep);
    }
  }

  lemma GoodNameChars(h: string)
    requires GoodName(h)
    ensures forall c :: c in h ==> LowerChar(c) || c == '.'
    ensures TrimSuffix(h, '.') == h
  {
    JoinSplit(h, '.');
    CharsOfJoin(Split(h, '.'), '.');
    var l := LastLabel(h);
    assert l in Split(h, '.') && ValidLabel(l);
    assert l[|l| - 1] in l;
    LastOfJoin(Split(h, '.'), '.');
  }

  lemma DigitsAreNumeric(l: string)
    ensures Digits(l) ==> Numeric(l)
  {
    if |l| >= 2 && l[..2] == "0x" {
      assert l[1] == l[..2][1] && l[1] in l;
    }
  }

  /** No name Canonical accepts is an address to any parser that keeps the laws. */
  lemma GoodNameIsNoAddress(lib: Library, h: string)
    requires Lawful(lib) && GoodName(h)
    ensures lib.parse(h).None?
  {
    GoodNameChars(h);
    assert !LowerChar(':');
    DigitsAreNumeric(LastLabel(h));
  }

  /** The canonical spelling is its own: an accepted host's form is accepted, unchanged. */
  lemma CanonicalIsIdempotent(lib: Library, host: string)
    requires Lawful(lib) && Canonical(lib, host).Some?
    ensures IsCanonical(lib, Canonical(lib, host).value)
    ensures lib.parse(host).None? ==> lib.parse(Canonical(lib, host).value).None?
  {
    var c := Canonical(lib, host).value;
    if lib.parse(host).None? {
      assert GoodName(c);
      GoodNameChars(c);
      GoodNameIsNoAddress(lib, c);
    }
  }

  /** A character of a host's label. */
  predicate LabelChar(c: char) { ('a' <= c && c <= 'z') || ('0' <= c && c <= '9') || c == '-' || c == '_' }

  /** All digits, or 0x and hexadecimal digits: what a URL parser takes for a number. */
  ghost predicate LooksNumeric(l: string) {
    || (forall c :: c in l ==> '0' <= c <= '9')
    || exists digits :: l == "0x" + digits && forall c :: c in digits ==> '0' <= c <= '9' || 'a' <= c <= 'f'
  }

  /** Labels of 1 to 63 such characters joined by dots, 253 in all at most, the last of them not numeric. */
  ghost predicate IsName(h: string, labels: seq<string>) {
    && labels != [] && h == Join(labels, '.') && |h| <= 253
    && (forall l :: l in labels ==> 1 <= |l| <= 63 && forall c :: c in l ==> LabelChar(c))
    && !LooksNumeric(labels[|labels| - 1])
  }

  lemma NumericMeans(l: string)
    ensures Numeric(l) <==> LooksNumeric(l)
  {
    if |l| >= 2 && l[..2] == "0x" {
      assert l == "0x" + l[2..] && l[1] in l && l[1] == l[..2][1];
    }
    if digits :| l == "0x" + digits && forall c :: c in digits ==> '0' <= c <= '9' || 'a' <= c <= 'f' {
      assert l[..2] == "0x" && l[2..] == digits;
    }
  }

  lemma GoodNameMeans(h: string)
    ensures GoodName(h) ==> IsName(h, Split(h, '.'))
    ensures forall labels :: IsName(h, labels) ==> GoodName(h)
  {
    JoinSplit(h, '.');
    var labels := Split(h, '.');
    NumericMeans(LastLabel(h));
    forall labels | IsName(h, labels) ensures GoodName(h) {
      forall l | l in labels ensures !Has(l, '.') {
        assert !LabelChar('.');
      }
      SplitJoin(labels, '.');
      NumericMeans(labels[|labels| - 1]);
      assert labels[|labels| - 1] in labels;
      LastOfJoin(labels, '.');
    }
  }

  /** The canonical form of what is no address: the lower-cased name less one trailing dot, exactly when that is a name. */
  lemma NameExactly(lib: Library, host: string, h: string)
    requires lib.parse(host).None?
    ensures Canonical(lib, host) == Some(h) <==>
      && h == TrimSuffix(lib.lower(host), '.')
      && exists labels :: IsName(h, labels)
  {
    GoodNameMeans(TrimSuffix(lib.lower(host), '.'));
    assert Canonical(lib, host).Some? <==> GoodName(TrimSuffix(lib.lower(host), '.'));
  }

  lemma CanonicalHasNoBrackets(lib: Library, h: string)
    requires Lawful(lib) && IsCanonical(lib, h)
    ensures !Has(h, '[') && !Has(h, ']')
  {
    if lib.parse(h).None? {
      assert GoodName(h);
      GoodNameChars(h);
      assert !LowerChar('[') && !LowerChar(']');
    }
  }

  // ---------- Ports ----------

  function Decimal(n: nat): (s: string)
    ensures s != "" && Digits(s)
  {
    var last := ['0' + (n % 10) as char];
    if n < 10 then last else Decimal(n / 10) + last
  }

  function ValueOf(s: string): nat
    requires Digits(s)
  {
    if s == "" then 0
    else
      assert Digits(s[..|s| - 1]) && s[|s| - 1] in s;
      ValueOf(s[..|s| - 1]) * 10 + (s[|s| - 1] - '0') as nat
  }

  /** strconv.ParseUint in base 10 and 16 bits. */
  function ParsePort(s: string): Option<nat> {
    if s == "" || !Digits(s) || ValueOf(s) > 0xffff then None else Some(ValueOf(s))
  }

  lemma {:induction false} DecimalParses(n: nat)
    ensures ValueOf(Decimal(n)) == n
  {
    if n >= 10 {
      DecimalParses(n / 10);
      assert Decimal(n)[..|Decimal(n)| - 1] == Decimal(n / 10);
    }
  }

  /** A port in its one decimal spelling, from 1 to 65535. */
  function CanonicalPort(p: string): Option<nat> {
    match ParsePort(p)
    case None => None
    case Some(n) => if n == 0 || Decimal(n) != p then None else Some(n)
  }

  // ---------- Authorities ----------

  /** net.SplitHostPort. */
  function SplitHostPort(s: string): Option<(string, string)> {
    match LastIndexOf(s, ':')
    case None => None
    case Some(i) =>
      if s[0] == '[' then
        match IndexOf(s, ']')
        case None => None
        case Some(end) =>
          if end + 1 != i || Has(s[1..], '[') || Has(s[end + 1..], ']') then None
          else Some((s[1..end], s[i + 1..]))
      else if Has(s[..i], ':') || Has(s, '[') || Has(s, ']') then None
      else Some((s[..i], s[i + 1..]))
  }

  function JoinHostPort(host: string, port: string): string {
    if Has(host, ':') then "[" + host + "]:" + port else host + ":" + port
  }

  lemma SplitUndoesJoin(host: string, port: string)
    requires !Has(host, '[') && !Has(host, ']') && Digits(port)
    ensures SplitHostPort(JoinHostPort(host, port)) == Some((host, port))
  {
    assert !Digit(':') && !Digit(']') && !Digit('[');
    if Has(host, ':') {
      SplitBracketed(host, port);
    } else {
      SplitPlain(host, port);
    }
  }

  lemma SplitPlain(host: string, port: string)
    requires !Has(host, ':') && !Has(host, '[') && !Has(host, ']')
    requires !Has(port, ':') && !Has(port, '[') && !Has(port, ']')
    ensures SplitHostPort(host + ":" + port) == Some((host, port))
  {
    var s := host + ":" + port;
    LastIndexIs(host, ':', port);
    assert s == host + [':'] + port;
    assert s[..|host|] == host && s[|host| + 1..] == port;
    assert s[0] in s;
  }

  /** "[host]:port", seen from each bracket and from the colon. */
  lemma BracketedParts(host: string, port: string)
    ensures
      var s, front := "[" + host + "]:" + port, ['['] + host;
      && s == (front + [']']) + [':'] + port
      && s == front + [']'] + ([':'] + port)
      && s[1..] == host + [']', ':'] + port
      && s[|front| + 1..] == [':'] + port
      && s[1..|front|] == host
      && s[|front| + 2..] == port
  {
    var s, front := "[" + host + "]:" + port, ['['] + host;
    assert |s| == |host| + |port| + 3;
    assert s[1..|front|] == host;
    assert s[|front| + 2..] == port;
  }

  lemma SplitBracketed(host: string, port: string)
    requires !Has(host, '[') && !Has(host, ']')
    requires !Has(port, ':') && !Has(port, '[') && !Has(port, ']')
    ensures SplitHostPort("[" + host + "]:" + port) == Some((host, port))
  {
    var s, front := "[" + host + "]:" + port, ['['] + host;
    BracketedParts(host, port);
    assert LastIndexOf(s, ':') == Some(|front| + 1) by { LastIndexIs(front + [']'], ':', port); }
    assert IndexOf(s, ']') == Some(|front|) by { IndexIs(front, ']', [':'] + port); }
    assert s[0] == '[' && !Has(s[1..], '[') && !Has(s[|front| + 1..], ']');
  }

  function SplitAuthority(lib: Library, authority: string): Option<(string, nat)> {
    match SplitHostPort(authority)
    case None => None
    case Some((host, p)) =>
      if !IsCanonical(lib, host) then None
      else match CanonicalPort(p)
        case None => None
        case Some(port) => if JoinHostPort(host, p) != authority then None else Some((host, port))
  }

  predicate Port(n: nat) { 1 <= n <= 0xffff }

  lemma JoinedIsSplit(lib: Library, host: string, port: nat)
    requires Lawful(lib) && IsCanonical(lib, host) && Port(port)
    ensures SplitAuthority(lib, JoinHostPort(host, Decimal(port))) == Some((host, port))
  {
    CanonicalHasNoBrackets(lib, host);
    DecimalParses(port);
    SplitUndoesJoin(host, Decimal(port));
  }

  lemma SplitIsJoined(lib: Library, authority: string)
    requires SplitAuthority(lib, authority).Some?
    ensures
      var (host, port) := SplitAuthority(lib, authority).value;
      IsCanonical(lib, host) && Port(port) && authority == JoinHostPort(host, Decimal(port))
  {
  }

  /** SplitAuthority accepts exactly the joined forms of a canonical host and a port, and takes them apart. */
  lemma SplitAuthorityInvertsJoin(lib: Library, authority: string, host: string, port: nat)
    requires Lawful(lib)
    ensures SplitAuthority(lib, authority) == Some((host, port)) <==>
      IsCanonical(lib, host) && Port(port) && authority == JoinHostPort(host, Decimal(port))
  {
    if IsCanonical(lib, host) && Port(port) {
      JoinedIsSplit(lib, host, port);
    }
    if SplitAuthority(lib, authority).Some? {
      SplitIsJoined(lib, authority);
    }
  }

  // ---------- The destination a request names ----------

  datatype Url = Url(scheme: string, hostname: string, port: string)

  function Authority(lib: Library, u: Url): Option<(string, nat)> {
    match Canonical(lib, u.hostname)
    case None => None
    case Some(host) =>
      if u.port != "" then
        match CanonicalPort(u.port)
        case None => None
        case Some(n) => Some((host, n))
      else if u.scheme == "http" then Some((host, 80))
      else if u.scheme == "https" then Some((host, 443))
      else None
  }

  /** A destination with no port is at the scheme's, if it is http or https; with one, at that port in its one spelling. */
  lemma AuthorityPort(lib: Library, u: Url)
    requires Canonical(lib, u.hostname).Some?
    ensures
      var host := Canonical(lib, u.hostname).value;
      && (u.port == "" && u.scheme == "http" ==> Authority(lib, u) == Some((host, 80)))
      && (u.port == "" && u.scheme == "https" ==> Authority(lib, u) == Some((host, 443)))
      && (u.port == "" && u.scheme != "http" && u.scheme != "https" ==> Authority(lib, u) == None)
      && (u.port != "" ==> forall n: nat :: Authority(lib, u) == Some((host, n)) <==> Port(n) && u.port == Decimal(n))
  {
    if u.port != "" {
      forall n: nat ensures Authority(lib, u) == Some((Canonical(lib, u.hostname).value, n)) <==> Port(n) && u.port == Decimal(n) {
        DecimalParses(n);
      }
    }
  }

  lemma AuthorityIsCanonical(lib: Library, u: Url)
    requires Lawful(lib) && Authority(lib, u).Some?
    ensures IsCanonical(lib, Authority(lib, u).value.0) && Port(Authority(lib, u).value.1)
  {
    CanonicalIsIdempotent(lib, u.hostname);
  }

  /**
    A request is for a pipe's destination, compared as text, exactly when it names
    the same host and the same port.
  */
  lemma SameAuthorityIsSameDestination(lib: Library, u: Url, authority: string)
    requires Lawful(lib) && Authority(lib, u).Some? && SplitAuthority(lib, authority).Some?
    ensures
      var (host, port) := Authority(lib, u).value;
      JoinHostPort(host, Decimal(port)) == authority <==> Some((host, port)) == SplitAuthority(lib, authority)
  {
    var (host, port) := Authority(lib, u).value;
    AuthorityIsCanonical(lib, u);
    SplitAuthorityInvertsJoin(lib, authority, host, port);
  }
}
