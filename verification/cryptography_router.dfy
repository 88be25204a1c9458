/** The router of the cryptography package (domain/cryptography/router.go),
    the later copy of CryptoRouter in which EncryptAlgorithm tests the lookup
    the right way round.  Its stringToHash is the same function as
    CryptoRouter's, which is used here. */
module CryptographyRouter {
  import opened Outcomes
  import Rsa
  import CR = CryptoRouter

  /** Configuration: the same shape as CryptoConfig. */
  datatype Configuration = Configuration(configs: map<string, CR.AlgorithmConfiguration>, defaultAlgorithm: string)

  datatype Router = Router(defaultAlgorithm: string, algorithms: map<string, Rsa.RsaOaep>)

  /** What NewRouter yields, whatever order the map is walked in. */
  function Built(c: Configuration): Result<Router, string>
  {
    if Rsa.RsaOaepName !in c.configs then Ok(Router(c.defaultAlgorithm, map[]))
    else
      var conf := c.configs[Rsa.RsaOaepName];
      match CR.StringToHash(conf.hash)
      case Err(e) => Err(e)
      case Ok(h) => Ok(Router(c.defaultAlgorithm, map[Rsa.RsaOaepName := Rsa.RsaOaep(conf.cypher, h)]))
  }

  /** NewRouter: walks the configuration map in an unspecified order. */
  method NewRouter(c: Configuration) returns (r: Result<Router, string>)
    ensures r == Built(c)
    ensures r.Ok? ==> r.value.defaultAlgorithm == c.defaultAlgorithm && r.value.algorithms.Keys <= {Rsa.RsaOaepName}
    ensures r.Err? <==> Rsa.RsaOaepName in c.configs && c.configs[Rsa.RsaOaepName].hash != Rsa.Sha256Name
  {
    var algorithms: map<string, Rsa.RsaOaep> := map[];
    var remaining := c.configs.Keys;
    while remaining != {}
      invariant remaining <= c.configs.Keys
      invariant Rsa.RsaOaepName in remaining ==> algorithms == map[]
      invariant Rsa.RsaOaepName !in remaining ==> Built(c) == Ok(Router(c.defaultAlgorithm, algorithms))
      decreases |remaining|
    {
      var name :| name in remaining;
      if name == Rsa.RsaOaepName {
        var conf := c.configs[name];
        var hash := CR.StringToHash(conf.hash);
        if hash.Err? {
          return Err(hash.error);
        }
        algorithms := algorithms[name := Rsa.RsaOaep(conf.cypher, hash.value)];
      }
      remaining := remaining - {name};
    }
    return Ok(Router(c.defaultAlgorithm, algorithms));
  }

  /** Router.Decrypt routes by the buffer's algorithm label. */
  function RouteDecrypt(r: Router, b: Rsa.EncryptedBuffer): (route: CR.Route)
    ensures route.Serve? <==> b.algorithm in r.algorithms
    ensures route.Serve? ==> route.algorithm == r.algorithms[b.algorithm]
    ensures !route.Serve? ==> route == CR.HandlerNotFound(CR.Name(b.algorithm))
  {
    if b.algorithm in r.algorithms then CR.Serve(r.algorithms[b.algorithm]) else CR.HandlerNotFound(CR.Name(b.algorithm))
  }

  /** Router.Encrypt routes by the default algorithm; the error prints the
      nil algorithm value. */
  function RouteEncrypt(r: Router): (route: CR.Route)
    ensures route.Serve? <==> r.defaultAlgorithm in r.algorithms
    ensures route.Serve? ==> route.algorithm == r.algorithms[r.defaultAlgorithm]
    ensures !route.Serve? ==> route == CR.HandlerNotFound(CR.NilValue)
  {
    if r.defaultAlgorithm in r.algorithms then CR.Serve(r.algorithms[r.defaultAlgorithm]) else CR.HandlerNotFound(CR.NilValue)
  }

  /** Router.EncryptAlgorithm: the named algorithm serves when registered;
      otherwise the error prints the shadowing nil algorithm value. */
  function RouteEncryptAlgorithm(r: Router, name: string): (route: CR.Route)
    ensures route.Serve? <==> name in r.algorithms
    ensures route.Serve? ==> route.algorithm == r.algorithms[name]
    ensures !route.Serve? ==> route == CR.HandlerNotFound(CR.NilValue)
  {
    if name in r.algorithms then CR.Serve(r.algorithms[name]) else CR.HandlerNotFound(CR.NilValue)
  }

  /** Both routers build the same algorithm table from the same settings, and
      this package's EncryptAlgorithm is the intended form of the other's. */
  lemma RoutersAgree(c: CR.CryptoConfig, name: string)
    ensures var mine := Built(Configuration(c.configs, c.defaultAlgorithm));
      var theirs := CR.Built(c);
      mine.Ok? == theirs.Ok?
      && (mine.Ok? ==> mine.value.algorithms == theirs.value.algorithms
                       && RouteEncryptAlgorithm(mine.value, name) == CR.RouteEncryptAlgorithmIntended(theirs.value, name))
  {
  }
}
