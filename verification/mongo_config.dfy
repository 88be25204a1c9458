/** The Mongo connection settings check.  domain/persistence/mongo/client.go
    and account_ms/persistence/mongo.go carry the same Configuration and the
    same Validate; this module models both. */
module MongoConfig {
  datatype Configuration = Configuration(hosts: seq<string>, sessionName: string, dbName: string)

  /** The empty-field errors collected into the configuration error. */
  datatype ConfigError = EmptyHosts | EmptySessionName | EmptyDbName

  /** The error's position in the order the checks run. */
  function Rank(e: ConfigError): nat
  {
    match e
    case EmptyHosts => 0
    case EmptySessionName => 1
    case EmptyDbName => 2
  }

  /** Configuration.Validate: all three checks run and every failure is
      collected, in check order. */
  function Validate(c: Configuration): (errs: seq<ConfigError>)
    ensures errs == [] <==> |c.hosts| > 0 && c.sessionName != "" && c.dbName != ""
    ensures EmptyHosts in errs <==> |c.hosts| == 0
    ensures EmptySessionName in errs <==> c.sessionName == ""
    ensures EmptyDbName in errs <==> c.dbName == ""
    ensures forall i, j :: 0 <= i < j < |errs| ==> Rank(errs[i]) < Rank(errs[j])
  {
    (if |c.hosts| == 0 then [EmptyHosts] else [])
    + (if c.sessionName == "" then [EmptySessionName] else [])
    + (if c.dbName == "" then [EmptyDbName] else [])
  }
}
