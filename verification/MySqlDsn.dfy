/** The MySQL connection string reader (parseMySQLDSN and splitHostPort in sql_dsn.go): whatever
    the password holds, the target is read off the parts around it. */
module MySqlDsn {
  import opened Bytes
  import opened Strings

  datatype Target = Target(user: Text, name: Text, host: Text, port: Text)

  const NO_TARGET := Target([], [], [], [])

  const SLASH: byte := 0x2F
  const QUESTION: byte := 0x3F
  const AT: byte := 0x40
  const COLON: byte := 0x3A
  const OPEN: byte := 0x28
  const CLOSE: byte := 0x29
  const OPEN_BRACKET: byte := 0x5B
  const CLOSE_BRACKET: byte := 0x5D

  /** The position of the last c. */
  function FindLast(s: Text, c: byte): (r: Option<nat>)
    ensures r.None? ==> Free(s, c)
    ensures r.Some? ==> r.value < |s| && s[r.value] == c && Free(s[r.value + 1..], c)
  {
    if s == [] then None
    else if s[|s| - 1] == c then Some(|s| - 1)
    else
      var r := FindLast(s[..|s| - 1], c);
      assert s == s[..|s| - 1] + [s[|s| - 1]];
      assert r.Some? ==> s[r.value + 1..] == s[..|s| - 1][r.value + 1..] + [s[|s| - 1]];
      r
  }

  /** What precedes the first c, all of s when there is none. */
  function Before(s: Text, c: byte): Text {
    s[..Find(s, c)]
  }

  /** Lowercases to "unix"; a dotted capital I lowercases to i. */
  predicate IsUnix(protocol: Text) {
    4 <= |protocol| <= 5 &&
    protocol[0] in {0x75, 0x55} && protocol[1] in {0x6E, 0x4E} &&
    (if |protocol| == 4 then protocol[2] in {0x69, 0x49} && protocol[3] in {0x78, 0x58}
     else protocol[2] == 0xC4 && protocol[3] == 0xB0 && protocol[4] in {0x78, 0x58})
  }

  /** A bracketed IPv6 literal, or what precedes the last colon; a bare host has no port. */
  function SplitHostPort(address: Text): (Text, Text) {
    var end := Find(address, CLOSE_BRACKET);
    if address != [] && address[0] == OPEN_BRACKET && end < |address| then
      var rest := address[end + 1..];
      (address[1..end], if rest != [] && rest[0] == COLON then rest[1..] else rest)
    else
      match FindLast(address, COLON)
      case Some(i) => (address[..i], address[i + 1..])
      case None => (address, [])
  }

  /** Splits before the first `(` of a text that ends in `)`. */
  function Endpoint(text: Text): (Text, Text) {
    var open := Find(text, OPEN);
    if open < |text| && text[|text| - 1] == CLOSE then (text[..open], text[open + 1..|text| - 1])
    else (text, [])
  }

  /** The host and port behind a protocol and an address. A socket path is a host of its own. */
  function Server(protocol: Text, address: Text): (Text, Text) {
    if IsUnix(protocol) then (address, [])
    else
      var (host, port) := SplitHostPort(if address == [] then DefaultAddress() else address);
      (host, if port == [] then DefaultPort() else port)
  }

  function DefaultAddress(): Text { Ascii("127.0.0.1:3306") }

  function DefaultHost(): Text { Ascii("127.0.0.1") }

  function DefaultPort(): Text { Ascii("3306") }

  function Parsed(dsn: Text): Target {
    match FindLast(dsn, SLASH)
    case None => NO_TARGET
    case Some(slash) =>
      var (user, server) := UserAndServer(dsn[..slash]);
      var (host, port) := Server(Endpoint(server).0, Endpoint(server).1);
      Target(user, Before(dsn[slash + 1..], QUESTION), host, port)
  }

  function UserAndServer(text: Text): (Text, Text) {
    match FindLast(text, AT)
    case None => ([], text)
    case Some(at) => (Before(text[..at], COLON), text[at + 1..])
  }

  method ParseMySqlDsn(dsn: Text) returns (target: Target)
    ensures target == Parsed(dsn)
  {
    hide Server, Endpoint;
    var slash := FindLast(dsn, SLASH);
    if slash.None? {
      return NO_TARGET;
    }
    var before, after := dsn[..slash.value], dsn[slash.value + 1..];
    target := NO_TARGET.(name := after);
    var i := Find(target.name, QUESTION);
    target := target.(name := target.name[..i]);
    var at := FindLast(before, AT);
    if at.Some? {
      var credentials := before[..at.value];
      before := before[at.value + 1..];
      var colon := Find(credentials, COLON);
      target := target.(user := credentials[..colon]);
    }
    var (protocol, address) := Endpoint(before);
    var (host, port) := Server(protocol, address);
    target := target.(host := host, port := port);
  }

  // ----- The grammar ---------------------------------------------------------------------------

  datatype Login = Login(user: Text, password: Option<Text>)

  /** user:password@protocol(address)/name?params */
  datatype Dsn = Dsn(login: Option<Login>, protocol: Text, address: Option<Text>, name: Text, params: Option<Text>)

  function Prefixed(c: byte, t: Option<Text>): Text {
    if t.None? then [] else [c] + t.value
  }

  function LoginText(l: Login): Text {
    l.user + Prefixed(COLON, l.password)
  }

  function ServerText(d: Dsn): Text {
    d.protocol + (if d.address.None? then [] else [OPEN] + d.address.value + [CLOSE])
  }

  function Written(d: Dsn): Text {
    LoginPart(d) + ServerText(d) + [SLASH] + (d.name + Prefixed(QUESTION, d.params))
  }

  function LoginPart(d: Dsn): Text {
    if d.login.None? then [] else LoginText(d.login.value) + [AT]
  }

  /** No delimiter where it would be taken for one; nothing is asked of the user and the
      password. */
  predicate Plain(d: Dsn) {
    Free(d.protocol, AT) && Free(d.protocol, OPEN) && (d.address.Some? ==> Free(d.address.value, AT)) &&
    Free(d.name, SLASH) && (d.params.Some? ==> Free(d.params.value, SLASH))
  }

  lemma FindLastUnique(s: Text, c: byte, i: nat)
    requires i < |s| && s[i] == c && Free(s[i + 1..], c)
    ensures FindLast(s, c) == Some(i)
  {
    assert c in s;
    var j := FindLast(s, c).value;
    assert forall k :: i < k < |s| ==> s[k] == s[i + 1..][k - i - 1];
    assert forall k :: j < k < |s| ==> s[k] == s[j + 1..][k - j - 1];
  }

  lemma FindLastSplit(a: Text, c: byte, b: Text)
    requires Free(b, c)
    ensures var s := a + [c] + b; FindLast(s, c) == Some(|a|) && s[..|a|] == a && s[|a| + 1..] == b
  {
    var s := a + [c] + b;
    assert s[..|a|] == a && s[|a| + 1..] == b;
    FindLastUnique(s, c, |a|);
  }

  /** A suffix behind a c does not change what precedes the first c. */
  lemma BeforePrefixed(a: Text, c: byte, b: Option<Text>)
    ensures Before(a + Prefixed(c, b), c) == Before(a, c)
  {
    var s, i := a + Prefixed(c, b), Find(a, c);
    assert s[..i] == a[..i];
    if i < |a| { assert s[i] == a[i] == c; }
    FindUnique(s, c, i);
  }

  lemma EndpointOf(d: Dsn)
    requires Plain(d)
    ensures Endpoint(ServerText(d)) == (d.protocol, if d.address.Some? then d.address.value else [])
    ensures Free(ServerText(d), AT)
  {
    var s := ServerText(d);
    assert s[..|d.protocol|] == d.protocol;
    FindUnique(s, OPEN, |d.protocol|);
    if d.address.Some? {
      assert s[|d.protocol| + 1..|s| - 1] == d.address.value;
    } else {
      assert s == d.protocol;
    }
  }

  lemma UserOf(d: Dsn)
    requires Plain(d)
    ensures UserAndServer(LoginPart(d) + ServerText(d)) ==
      (if d.login.Some? then Before(d.login.value.user, COLON) else [], ServerText(d))
  {
    hide Endpoint, ServerText, Before;
    EndpointOf(d);
    if d.login.Some? {
      FindLastSplit(LoginText(d.login.value), AT, ServerText(d));
      BeforePrefixed(d.login.value.user, COLON, d.login.value.password);
    } else {
      assert LoginPart(d) + ServerText(d) == ServerText(d);
    }
  }

  /** What precedes a colon of the user's own is all that is read of the user; of the password
      nothing is, and everything else is exact. */
  lemma TargetIsExact(d: Dsn)
    requires Plain(d)
    ensures var t := Parsed(Written(d));
      t.user == (if d.login.Some? then Before(d.login.value.user, COLON) else []) &&
      t.name == Before(d.name, QUESTION) &&
      (t.host, t.port) == Server(d.protocol, if d.address.Some? then d.address.value else [])
  {
    hide Server, Endpoint, ServerText, Before, UserAndServer;
    var rest := d.name + Prefixed(QUESTION, d.params);
    FindLastSplit(LoginPart(d) + ServerText(d), SLASH, rest);
    BeforePrefixed(d.name, QUESTION, d.params);
    EndpointOf(d);
    UserOf(d);
  }

  /** The user comes through whole exactly when it holds no colon, whatever the password. */
  lemma UserIsWhole(d: Dsn)
    requires Plain(d) && d.login.Some?
    ensures Parsed(Written(d)).user == d.login.value.user <==> Free(d.login.value.user, COLON)
  {
    TargetIsExact(d);
    var user := d.login.value.user;
    assert user[..|user|] == user;
    if Free(user, COLON) { FindUnique(user, COLON, |user|); }
  }

  lemma PasswordPlaysNoPart(d: Dsn, login: Login, password: Option<Text>)
    requires Plain(d) && d.login == Some(login)
    ensures Parsed(Written(d.(login := Some(login.(password := password))))) == Parsed(Written(d))
  {
    hide Parsed, Written, Server;
    TargetIsExact(d);
    TargetIsExact(d.(login := Some(login.(password := password))));
  }

  // ----- Host and port ---------------------------------------------------------------------------

  lemma HostAndPort(host: Text, port: Text)
    requires (host == [] || host[0] != OPEN_BRACKET) && Free(port, COLON)
    ensures SplitHostPort(host + [COLON] + port) == (host, port)
  {
    FindLastSplit(host, COLON, port);
  }

  lemma BracketedHost(host: Text, port: Option<Text>)
    requires Free(host, CLOSE_BRACKET)
    ensures SplitHostPort([OPEN_BRACKET] + host + [CLOSE_BRACKET] + Prefixed(COLON, port)) ==
      (host, if port.Some? then port.value else [])
  {
    var s, end := [OPEN_BRACKET] + host + [CLOSE_BRACKET] + Prefixed(COLON, port), |host| + 1;
    assert s[..end] == [OPEN_BRACKET] + host && s[1..end] == host && s[end + 1..] == Prefixed(COLON, port);
    FindUnique(s, CLOSE_BRACKET, end);
    if port.Some? {
      assert s[end + 1..][1..] == port.value;
    }
  }

  // ----- Servers -------------------------------------------------------------------------------------

  /** Lower case, as far as the four letters of unix need it: a dotted capital I lowers to i. */
  function Lowered(s: Text): Text
    decreases |s|
  {
    if s == [] then []
    else if 'A' as int <= s[0] <= 'Z' as int then [s[0] - 'A' as int + 'a' as int] + Lowered(s[1..])
    else if |s| >= 2 && s[..2] == Utf8(0x130) then ['i' as int] + Lowered(s[2..])
    else [s[0]] + Lowered(s[1..])
  }

  /** How many bytes at the head of s lower to the letter c, 0 if none do. */
  function LowersTo(s: Text, c: byte): (n: nat)
    ensures n <= |s|
  {
    if s == [] then 0
    else if s[0] == c || s[0] == c - 0x20 then 1
    else if |s| >= 2 && s[0] == 0xC4 && s[1] == 0xB0 && c == 'i' as int then 2
    else 0
  }

  predicate Letter(c: byte) {
    'a' as int <= c <= 'z' as int
  }

  lemma LoweredHead(s: Text, c: byte)
    requires s != [] && Letter(c)
    ensures Lowered(s) != []
    ensures var n := LowersTo(s, c);
      if n > 0 then Lowered(s) == [c] + Lowered(s[n..]) else Lowered(s)[0] != c
  {
    assert Utf8(0x130) == [0xC4, 0xB0];
    assert |s| >= 2 ==> s[..2] == [s[0], s[1]];
  }

  /** One letter of a lowered word. */
  lemma LoweredLetter(s: Text, c: byte, rest: Text)
    requires Letter(c)
    ensures Lowered(s) == [c] + rest <==> LowersTo(s, c) > 0 && Lowered(s[LowersTo(s, c)..]) == rest
  {
    hide Lowered, LowersTo, Letter;
    if s == [] {
      NothingLowered();
    } else {
      LoweredHead(s, c);
      if LowersTo(s, c) > 0 {
        assert ([c] + Lowered(s[LowersTo(s, c)..]))[1..] == Lowered(s[LowersTo(s, c)..]) && ([c] + rest)[1..] == rest;
      }
    }
  }

  lemma NothingLowered()
    ensures Lowered([]) == [] && forall c: byte :: LowersTo([], c) == 0
  {
  }

  lemma LoweredEmpty(s: Text)
    ensures Lowered(s) == [] <==> s == []
  {
  }

  function Unix(): Text {
    ['u' as int, 'n' as int, 'i' as int, 'x' as int]
  }

  /** The protocol is unix whatever its case. */
  lemma UnixInAnyCase(protocol: Text)
    ensures IsUnix(protocol) <==> Lowered(protocol) == Unix()
  {
    hide Lowered, LowersTo, IsUnix;
    var u, n, i, x: byte := 'u' as int, 'n' as int, 'i' as int, 'x' as int;
    var s1 := protocol[LowersTo(protocol, u)..];
    var s2 := s1[LowersTo(s1, n)..];
    var s3 := s2[LowersTo(s2, i)..];
    var s4 := s3[LowersTo(s3, x)..];
    LoweredLetter(protocol, u, [n] + ([i] + ([x] + [])));
    LoweredLetter(s1, n, [i] + ([x] + []));
    LoweredLetter(s2, i, [x] + []);
    LoweredLetter(s3, x, []);
    LoweredEmpty(s4);
    assert Unix() == [u] + ([n] + ([i] + ([x] + [])));
    UnixLetters(protocol, s1, s2, s3, s4);
  }

  lemma UnixLetters(s: Text, s1: Text, s2: Text, s3: Text, s4: Text)
    requires s1 == s[LowersTo(s, 'u' as int)..] && s2 == s1[LowersTo(s1, 'n' as int)..]
    requires s3 == s2[LowersTo(s2, 'i' as int)..] && s4 == s3[LowersTo(s3, 'x' as int)..]
    ensures IsUnix(s) <==>
      LowersTo(s, 'u' as int) > 0 && LowersTo(s1, 'n' as int) > 0 && LowersTo(s2, 'i' as int) > 0 &&
      LowersTo(s3, 'x' as int) > 0 && s4 == []
  {
  }

  /** Without an address, the server is 127.0.0.1 on port 3306; without a port, on port 3306. A
      unix socket has its path for a host and no port at all. */
  lemma ServerDefaults(protocol: Text, address: Text)
    ensures IsUnix(protocol) ==> Server(protocol, address) == (address, [])
    ensures !IsUnix(protocol) ==> Server(protocol, []) == (DefaultHost(), DefaultPort())
    ensures !IsUnix(protocol) && address != [] ==>
      var (host, port) := SplitHostPort(address);
      Server(protocol, address) == (host, if port == [] then DefaultPort() else port)
  {
    hide SplitHostPort, IsUnix, DefaultHost, DefaultPort;
    assert DefaultAddress() != [];
    hide DefaultAddress;
    DefaultParts();
  }

  lemma DefaultParts()
    ensures SplitHostPort(DefaultAddress()) == (DefaultHost(), DefaultPort())
  {
    hide SplitHostPort;
    assert DefaultAddress() == DefaultHost() + [COLON] + DefaultPort();
    HostAndPort(DefaultHost(), DefaultPort());
  }

  /** A host without a port, in brackets or not, is reached on port 3306. */
  lemma HostAlone(protocol: Text, host: Text)
    requires !IsUnix(protocol) && host != []
    ensures host[0] != OPEN_BRACKET && Free(host, COLON) ==> Server(protocol, host) == (host, DefaultPort())
    ensures Free(host, CLOSE_BRACKET) ==>
      Server(protocol, [OPEN_BRACKET] + host + [CLOSE_BRACKET]) == (host, DefaultPort())
  {
    hide Server, IsUnix, DefaultHost, DefaultPort;
    ServerDefaults(protocol, host);
    ServerDefaults(protocol, [OPEN_BRACKET] + host + [CLOSE_BRACKET]);
    if Free(host, CLOSE_BRACKET) {
      BracketedHost(host, None);
      assert [OPEN_BRACKET] + host + [CLOSE_BRACKET] + [] == [OPEN_BRACKET] + host + [CLOSE_BRACKET];
    }
  }
}
