/** The settings and the connection string of `MongoConnector` in the GNT
    back end. Unlike the clusterer back end, `connect` always builds the URI
    and always writes the port, and it binds the user part only when a user
    is set, so that without a user the f-string reads a variable that was
    never assigned and `connect` raises `UnboundLocalError`. */
module GntDatabase {
  import opened Wrappers
  import opened PyStrings
  import opened MongoUri

  /** `UnboundLocalError` on `mongo_user_password` */
  datatype ConnectError = UnboundUserPassword

  /** The URI `connect` builds, as written: it fails exactly when no user
      is set, and otherwise agrees with the corrected builder. */
  function ConnectionUri(user: Option<string>, password: Option<string>, host: string, port: int, database: string)
    : (r: Result<string, ConnectError>)
    ensures r.Failure? <==> !Truthy(user)
    ensures r.Success? ==> r.value == CorrectedConnectionUri(user, password, host, port, database)
  {
    if Truthy(user) then Success(AssembleUri(UserInfo(user.value, password), host, ":" + IntToString(port), database))
    else Failure(UnboundUserPassword)
  }

  /** The URI `connect` evidently means to build: an empty user part when no
      user is set, as in the clusterer back end */
  function CorrectedConnectionUri(user: Option<string>, password: Option<string>, host: string, port: int, database: string)
    : string
  {
    AssembleUri(UserPart(user, password), host, PortSuffix(Some(IntToString(port))), database)
  }

  class MongoConnector {
    var mongoPort: int
    var mongoHost: string
    var mongoDatabase: string
    var mongoPassword: Option<string>
    var mongoUser: Option<string>

    /** The constructor keeps its arguments; the defaults are those of the
        Python constructor. */
    constructor (mongoDatabase: string := "gnt", mongoHost: string := "localhost", mongoPort: int := 27017,
                 mongoPassword: Option<string> := None, mongoUser: Option<string> := None)
      ensures this.mongoDatabase == mongoDatabase && this.mongoHost == mongoHost && this.mongoPort == mongoPort
      ensures this.mongoPassword == mongoPassword && this.mongoUser == mongoUser
    {
      this.mongoPort := mongoPort;
      this.mongoHost := mongoHost;
      this.mongoDatabase := mongoDatabase;
      this.mongoPassword := mongoPassword;
      this.mongoUser := mongoUser;
    }

    /** `connect`, up to the client it opens: the URI handed to the client,
        or the error raised before one is opened. The connector's settings
        are not changed. */
    method Connect() returns (r: Result<string, ConnectError>)
      ensures r == ConnectionUri(mongoUser, mongoPassword, mongoHost, mongoPort, mongoDatabase)
    {
      if Truthy(mongoUser) {
        var mongoUserPassword := UserInfo(mongoUser.value, mongoPassword);
        var mongoUri := Scheme + mongoUserPassword + mongoHost + ":" + IntToString(mongoPort) + "/" + mongoDatabase + Options;
        assert mongoUri == AssembleUri(mongoUserPassword, mongoHost, ":" + IntToString(mongoPort), mongoDatabase);
        r := Success(mongoUri);
      } else {
        r := Failure(UnboundUserPassword);
      }
    }
  }

  /** `connect` fails exactly when no user is set; when it succeeds, its URI
      names the host, the port, the database and the credentials. */
  lemma ConnectionUriReadsBack(user: Option<string>, password: Option<string>, host: string, port: int, database: string)
    requires Readable(user, host, database)
    ensures ConnectionUri(user, password, host, port, database).Failure? <==> !Truthy(user)
    ensures ConnectionUri(user, password, host, port, database).Success? ==>
              ParseUri(ConnectionUri(user, password, host, port, database).value)
                == Some(Endpoint(CredentialsOf(user, password), host, Some(IntToString(port)), database))
  {
    if Truthy(user) {
      ParseAssembleUri(user, password, host, Some(IntToString(port)), database);
    }
  }

  /** `DataBaseFiller` builds its connector from a database, a host and a
      port only, so its `connect` always raises. */
  method FillerConnect(mongoDatabase: string, mongoHost: string, mongoPort: int)
    returns (r: Result<string, ConnectError>)
    ensures r == Failure(UnboundUserPassword)
  {
    var databaseInstance := new MongoConnector(mongoDatabase, mongoHost, mongoPort);
    r := databaseInstance.Connect();
  }

  /** The corrected URI agrees with the one as written whenever that one is
      built, is also built without a user, and reads back as the settings. */
  lemma CorrectedConnectionUriReadsBack(user: Option<string>, password: Option<string>, host: string, port: int, database: string)
    requires Readable(user, host, database)
    ensures Truthy(user) ==> ConnectionUri(user, password, host, port, database)
                             == Success(CorrectedConnectionUri(user, password, host, port, database))
    ensures ParseUri(CorrectedConnectionUri(user, password, host, port, database))
         == Some(Endpoint(CredentialsOf(user, password), host, Some(IntToString(port)), database))
  {
    ParseAssembleUri(user, password, host, Some(IntToString(port)), database);
  }
}
