/** The settings and the connection string of `MongoConnector` in the
    clusterer back end. `connect` keeps a URI that was configured and
    otherwise builds one from the host, port, database and credentials and
    stores it in the connector. */
module ClustererDatabase {
  import opened Wrappers
  import opened PyStrings
  import opened MongoUri

  /** `f":{port}" if port else ""`: the port is written unless it is 0 */
  function PortPart(port: int): Option<string> {
    if port != 0 then Some(IntToString(port)) else None
  }

  /** The connection string `connect` builds when none is configured: it
      starts with the scheme, ends with the options and has the `/` before
      the database in between. */
  function BuildUri(user: Option<string>, password: Option<string>, host: string, port: int, database: string): (r: string)
    ensures |Scheme| + |Options| < |r|
    ensures r[..|Scheme|] == Scheme && r[|r| - |Options|..] == Options
  {
    AssembleFrame(UserPart(user, password), host, PortSuffix(PortPart(port)), database);
    AssembleUri(UserPart(user, password), host, PortSuffix(PortPart(port)), database)
  }

  class MongoConnector {
    var mongoUri: string
    var mongoPort: int
    var mongoHost: string
    var mongoDatabase: string
    var mongoPassword: Option<string>
    var mongoUser: Option<string>

    /** The constructor keeps its arguments; the defaults are those of the
        Python constructor. */
    constructor (mongoUri: string := "", mongoDatabase: string := "bible", mongoHost: string := "localhost",
                 mongoPort: int := 27017, mongoPassword: Option<string> := None, mongoUser: Option<string> := None)
      ensures this.mongoUri == mongoUri && this.mongoDatabase == mongoDatabase && this.mongoHost == mongoHost
      ensures this.mongoPort == mongoPort && this.mongoPassword == mongoPassword && this.mongoUser == mongoUser
    {
      this.mongoUri := mongoUri;
      this.mongoPort := mongoPort;
      this.mongoHost := mongoHost;
      this.mongoDatabase := mongoDatabase;
      this.mongoPassword := mongoPassword;
      this.mongoUser := mongoUser;
    }

    /** The URI built from the connector's settings */
    function BuiltUri(): string
      reads this
    {
      BuildUri(mongoUser, mongoPassword, mongoHost, mongoPort, mongoDatabase)
    }

    /** `connect`, up to the client it opens: an empty URI is replaced by the
        built one, a configured one is kept, and the client is given the
        stored URI, which is never empty afterwards. */
    method Connect() returns (clientUri: string)
      modifies this
      ensures mongoUri == (if old(mongoUri) == "" then old(BuiltUri()) else old(mongoUri))
      ensures mongoUri != "" && clientUri == mongoUri
      ensures mongoPort == old(mongoPort) && mongoHost == old(mongoHost) && mongoDatabase == old(mongoDatabase)
      ensures mongoPassword == old(mongoPassword) && mongoUser == old(mongoUser)
    {
      var mongoUserPassword := UserPart(mongoUser, mongoPassword);
      var mongoUserPort := PortSuffix(PortPart(mongoPort));
      if mongoUri == "" {
        mongoUri := AssembleUri(mongoUserPassword, mongoHost, mongoUserPort, mongoDatabase);
      }
      clientUri := mongoUri;
    }
  }

  /** The built URI names the connector's host, database and credentials,
      and its port unless the port is 0. */
  lemma BuildUriReadsBack(user: Option<string>, password: Option<string>, host: string, port: int, database: string)
    requires Readable(user, host, database)
    ensures ParseUri(BuildUri(user, password, host, port, database))
         == Some(Endpoint(CredentialsOf(user, password), host, PortPart(port), database))
  {
    ParseAssembleUri(user, password, host, PortPart(port), database);
  }

  /** The built URI carries credentials exactly when a user is set. */
  lemma BuildUriCredentials(user: Option<string>, password: Option<string>, host: string, port: int, database: string)
    requires '@' !in host && '@' !in database
    ensures '@' in BuildUri(user, password, host, port, database) <==> Truthy(user)
  {
    var userPart := UserPart(user, password);
    var portSuffix := PortSuffix(PortPart(port));
    assert '@' !in portSuffix by {
      if port != 0 {
        assert portSuffix == ":" + IntToString(port);
      }
    }
    assert '@' !in Scheme && '@' !in Options by {
      assert Scheme == "mongodb://" && Options == "?authSource=admin";
    }
    assert '@' in userPart <==> Truthy(user) by {
      if Truthy(user) {
        assert userPart[|userPart| - 1] == '@';
      }
    }
    assert BuildUri(user, password, host, port, database)
        == Scheme + userPart + host + portSuffix + "/" + database + Options;
  }
}
