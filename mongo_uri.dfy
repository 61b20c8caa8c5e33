/** The MongoDB connection string both `MongoConnector.connect` methods build,
    `mongodb://[user:password@]host[:port]/database?authSource=admin`, and a
    reader that takes one apart again. The reader is the partner of the two
    builders: each back end proves that reading its URI gives back the
    settings it was built from. */
module MongoUri {
  import opened Wrappers
  import opened PyStrings

  const Scheme: string := "mongodb://"

  /** Credentials are checked against the `admin` database. */
  const Options: string := "?authSource=admin"

  datatype Credentials = Credentials(user: string, password: Option<string>)

  /** What a connection string names */
  datatype Endpoint = Endpoint(credentials: Option<Credentials>, host: string, port: Option<string>, database: string)

  /** The user part of both builders, `f"{user}:{password}@"`, for a user
      that is set */
  function UserInfo(user: string, password: Option<string>): string {
    user + ":" + Format(password) + "@"
  }

  /** `s` cut at its last `c`: what comes before and what comes after */
  function SplitLast(s: string, c: char): (r: Option<(string, string)>)
    ensures r.None? <==> c !in s
    ensures r.Some? ==> s == r.value.0 + [c] + r.value.1 && c !in r.value.1
  {
    if s == [] then None
    else
      var n := |s| - 1;
      if s[n] == c then
        assert s == s[..n] + [c] + [];
        Some((s[..n], []))
      else
        match SplitLast(s[..n], c)
        case None =>
          assert s == s[..n] + [s[n]];
          None
        case Some((before, after)) =>
          assert s == s[..n] + [s[n]];
          Some((before, after + [s[n]]))
  }

  /** `s` cut at its first `c` */
  function SplitFirst(s: string, c: char): (r: Option<(string, string)>)
    ensures r.None? <==> c !in s
    ensures r.Some? ==> s == r.value.0 + [c] + r.value.1 && c !in r.value.0
  {
    if s == [] then None
    else if s[0] == c then
      assert s == [] + [c] + s[1..];
      Some(([], s[1..]))
    else
      match SplitFirst(s[1..], c)
      case None =>
        assert s == [s[0]] + s[1..];
        None
      case Some((before, after)) =>
        assert s == [s[0]] + s[1..];
        Some(([s[0]] + before, after))
  }

  /** Cutting at the last `c` finds the `c` after which none follows. */
  lemma {:induction false} SplitLastOf(before: string, c: char, after: string)
    requires c !in after
    ensures SplitLast(before + [c] + after, c) == Some((before, after))
  {
    var s := before + [c] + after;
    var n := |s| - 1;
    if after == [] {
      assert s[..n] == before;
    } else {
      var init := after[..|after| - 1];
      assert s[..n] == before + [c] + init;
      assert s[n] == after[|after| - 1];
      SplitLastOf(before, c, init);
      assert init + [s[n]] == after;
    }
  }

  /** Cutting at the first `c` finds the `c` before which none occurs. */
  lemma {:induction false} SplitFirstOf(before: string, c: char, after: string)
    requires c !in before
    ensures SplitFirst(before + [c] + after, c) == Some((before, after))
  {
    var s := before + [c] + after;
    if before == [] {
      assert s[1..] == after;
    } else {
      assert s[0] == before[0];
      assert s[1..] == before[1..] + [c] + after;
      SplitFirstOf(before[1..], c, after);
      assert [s[0]] + before[1..] == before;
    }
  }

  /** The credentials of a `user[:password]` user part */
  function ReadCredentials(userInfo: string): Credentials {
    match SplitFirst(userInfo, ':')
    case None => Credentials(userInfo, None)
    case Some((user, password)) => Credentials(user, Some(password))
  }

  /** The host and port of a `host[:port]` address */
  function ReadAddress(address: string): (string, Option<string>) {
    match SplitLast(address, ':')
    case None => (address, None)
    case Some((host, port)) => (host, Some(port))
  }

  /** The credentials, host and port of a `[user:password@]host[:port]`
      authority */
  function ReadAuthority(authority: string): (Option<Credentials>, string, Option<string>) {
    match SplitLast(authority, '@')
    case None =>
      var (host, port) := ReadAddress(authority);
      (None, host, port)
    case Some((userInfo, address)) =>
      var (host, port) := ReadAddress(address);
      (Some(ReadCredentials(userInfo)), host, port)
  }

  /** Reads a connection string of the form the builders produce, or `None`
      when the scheme, the options or the path separator is missing. */
  function ParseUri(uri: string): Option<Endpoint> {
    if |uri| < |Scheme| + |Options| || uri[..|Scheme|] != Scheme || uri[|uri| - |Options|..] != Options then None
    else
      match SplitLast(uri[|Scheme|..|uri| - |Options|], '/')
      case None => None
      case Some((authority, database)) =>
        var (credentials, host, port) := ReadAuthority(authority);
        Some(Endpoint(credentials, host, port, database))
  }

  /** The URI assembled from an optional user part, a host, an optional
      port part and a database, as both builders lay it out */
  function AssembleUri(userInfo: string, host: string, portPart: string, database: string): string {
    Scheme + userInfo + host + portPart + "/" + database + Options
  }

  /** An assembled URI starts with the scheme, ends with the options and
      has the `/` before the database in between. */
  lemma AssembleFrame(userInfo: string, host: string, portPart: string, database: string)
    ensures var uri := AssembleUri(userInfo, host, portPart, database);
            |Scheme| + |Options| < |uri| && uri[..|Scheme|] == Scheme && uri[|uri| - |Options|..] == Options
  {
    Framed(Scheme, userInfo + host + portPart + "/" + database, Options);
    assert AssembleUri(userInfo, host, portPart, database) == Scheme + (userInfo + host + portPart + "/" + database) + Options;
  }

  /** `a + m + b` starts with `a` and ends with `b`. */
  lemma Framed(a: string, m: string, b: string)
    ensures (a + m + b)[..|a|] == a && (a + m + b)[|a + m + b| - |b|..] == b
  {
  }

  /** The settings may not contain the characters that delimit the fields
      they are read back from. */
  predicate Readable(user: Option<string>, host: string, database: string) {
    (Truthy(user) ==> ':' !in user.value) && '@' !in host && ':' !in host && '/' !in database
  }

  /** The scheme, the path separator before the database and the options are
      found again around the authority. */
  lemma ParseFrame(authority: string, database: string)
    requires '/' !in database
    ensures var (credentials, host, port) := ReadAuthority(authority);
            ParseUri(Scheme + authority + "/" + database + Options) == Some(Endpoint(credentials, host, port, database))
  {
    var uri := Scheme + authority + "/" + database + Options;
    assert uri == Scheme + (authority + ['/'] + database) + Options;
    assert uri[..|Scheme|] == Scheme;
    assert uri[|uri| - |Options|..] == Options;
    assert uri[|Scheme|..|uri| - |Options|] == authority + ['/'] + database;
    SplitLastOf(authority, '/', database);
  }

  /** A host without `:` is read back with the port part, if any. */
  lemma ReadAddressOf(host: string, port: Option<string>)
    requires ':' !in host && (port.Some? ==> ':' !in port.value)
    ensures ReadAddress(host + (if port.Some? then ":" + port.value else "")) == (host, port)
  {
    if port.Some? {
      assert host + (":" + port.value) == host + [':'] + port.value;
      SplitLastOf(host, ':', port.value);
    } else {
      assert host + "" == host;
    }
  }

  /** An authority with a user part is read back as those credentials and
      the address after the last `@`. */
  lemma ReadAuthorityOf(user: string, password: Option<string>, address: string)
    requires ':' !in user && '@' !in address
    ensures ReadAuthority(UserInfo(user, password) + address) == (Some(Credentials(user, Some(Format(password)))), ReadAddress(address).0, ReadAddress(address).1)
  {
    var userPass := user + [':'] + Format(password);
    assert UserInfo(user, password) + address == userPass + ['@'] + address;
    SplitLastOf(userPass, '@', address);
    SplitFirstOf(user, ':', Format(password));
  }

  /** The user part both builders write: `f"{user}:{password}@"` when the
      user is truthy, nothing otherwise */
  function UserPart(user: Option<string>, password: Option<string>): string {
    if Truthy(user) then UserInfo(user.value, password) else ""
  }

  /** The credentials a user part carries */
  function CredentialsOf(user: Option<string>, password: Option<string>): Option<Credentials> {
    if Truthy(user) then Some(Credentials(user.value, Some(Format(password)))) else None
  }

  /** `:port`, or nothing */
  function PortSuffix(port: Option<string>): string {
    if port.Some? then ":" + port.value else ""
  }

  /** The authority of an assembled URI is read back as its parts. */
  lemma ReadAssembledAuthority(user: Option<string>, password: Option<string>, host: string, port: Option<string>)
    requires (Truthy(user) ==> ':' !in user.value) && '@' !in host && ':' !in host
    requires port.Some? ==> '@' !in port.value && ':' !in port.value
    ensures ReadAuthority(UserPart(user, password) + (host + PortSuffix(port))) == (CredentialsOf(user, password), host, port)
  {
    var address := host + PortSuffix(port);
    ReadAddressOf(host, port);
    assert '@' !in address;
    if Truthy(user) {
      ReadAuthorityOf(user.value, password, address);
    } else {
      assert UserPart(user, password) + address == address;
    }
  }

  /** Reading an assembled URI gives back its parts: the credentials when a
      user part is present, the host, the port when a port part is present,
      and the database. */
  lemma ParseAssembleUri(user: Option<string>, password: Option<string>, host: string, port: Option<string>, database: string)
    requires Readable(user, host, database)
    requires port.Some? ==> '@' !in port.value && ':' !in port.value
    ensures ParseUri(AssembleUri(UserPart(user, password), host, PortSuffix(port), database))
         == Some(Endpoint(CredentialsOf(user, password), host, port, database))
  {
    var authority := UserPart(user, password) + (host + PortSuffix(port));
    assert AssembleUri(UserPart(user, password), host, PortSuffix(port), database)
        == Scheme + authority + "/" + database + Options;
    ParseFrame(authority, database);
    ReadAssembledAuthority(user, password, host, port);
  }
}
