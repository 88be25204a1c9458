/** The algorithm router of the domain package (domain/crypto_router.go):
    built from a configuration, it picks the algorithm value that encrypts or
    decrypts a buffer.  What the picked rsa_oaep value then does is
    Rsa.Encrypt / Rsa.Decrypt. */
module CryptoRouter {
  import opened Outcomes
  import Rsa

  datatype AlgorithmConfiguration = AlgorithmConfiguration(cypher: string, hash: string)

  /** CryptoConfig: per-algorithm settings and the default algorithm's name. */
  datatype CryptoConfig = CryptoConfig(configs: map<string, AlgorithmConfiguration>, defaultAlgorithm: string)

  /** Entries of the configuration error; the default algorithm's check is
      reported under the field name "session_name". */
  datatype ConfigError = EmptyConfigs | EmptySessionName

  /** CryptoConfig.Validate: both checks run, in this order. */
  function ValidateConfig(c: CryptoConfig): (errs: seq<ConfigError>)
    ensures errs == [] <==> |c.configs| > 0 && c.defaultAlgorithm != ""
    ensures (EmptyConfigs in errs) <==> |c.configs| == 0
    ensures (EmptySessionName in errs) <==> c.defaultAlgorithm == ""
    ensures errs == [EmptyConfigs, EmptySessionName] <==> |c.configs| == 0 && c.defaultAlgorithm == ""
  {
    (if |c.configs| == 0 then [EmptyConfigs] else [])
    + (if c.defaultAlgorithm == "" then [EmptySessionName] else [])
  }

  /** stringToHash: only "sha-256" names a hash; anything else is the error
      "hash not found: '<name>'". */
  function StringToHash(s: string): (r: Result<Rsa.Hash, string>)
    ensures r.Ok? <==> s == Rsa.Sha256Name
    ensures r.Ok? ==> r.value == Rsa.Sha256
    ensures r.Err? ==> r.error == "hash not found: '" + s + "'"
  {
    if s == Rsa.Sha256Name then Ok(Rsa.Sha256) else Err("hash not found: '" + s + "'")
  }

  /** The router: the default algorithm's name and the registered algorithms;
      rsa_oaep is the only kind there is. */
  datatype CryptoRouter = CryptoRouter(defaultAlgorithm: string, algorithms: map<string, Rsa.RsaOaep>)

  /** What construction yields, whatever order the configuration map is
      walked in: only the rsa_oaep entry matters; a bad hash name there
      fails the construction, other names are ignored. */
  function Built(c: CryptoConfig): Result<CryptoRouter, string>
  {
    if Rsa.RsaOaepName !in c.configs then Ok(CryptoRouter(c.defaultAlgorithm, map[]))
    else
      var conf := c.configs[Rsa.RsaOaepName];
      match StringToHash(conf.hash)
      case Err(e) => Err(e)
      case Ok(h) => Ok(CryptoRouter(c.defaultAlgorithm, map[Rsa.RsaOaepName := Rsa.RsaOaep(conf.cypher, h)]))
  }

  /** NewCryptoRouter: walks the configuration map in an unspecified order. */
  method NewCryptoRouter(c: CryptoConfig) returns (r: Result<CryptoRouter, string>)
    ensures r == Built(c)
    ensures r.Ok? ==> r.value.defaultAlgorithm == c.defaultAlgorithm && r.value.algorithms.Keys <= {Rsa.RsaOaepName}
    ensures r.Ok? ==> (Rsa.RsaOaepName in r.value.algorithms <==> Rsa.RsaOaepName in c.configs)
  {
    var algorithms: map<string, Rsa.RsaOaep> := map[];
    var remaining := c.configs.Keys;
    while remaining != {}
      invariant remaining <= c.configs.Keys
      invariant Rsa.RsaOaepName in remaining ==> algorithms == map[]
      invariant Rsa.RsaOaepName !in remaining ==> Built(c) == Ok(CryptoRouter(c.defaultAlgorithm, algorithms))
      decreases |remaining|
    {
      var name :| name in remaining;
      if name == Rsa.RsaOaepName {
        var conf := c.configs[name];
        var hash := StringToHash(conf.hash);
        if hash.Err? {
          return Err(hash.error);
        }
        algorithms := algorithms[name := Rsa.RsaOaep(conf.cypher, hash.value)];
      }
      remaining := remaining - {name};
    }
    return Ok(CryptoRouter(c.defaultAlgorithm, algorithms));
  }

  /** How "%s" prints the value in "handler for '%s' not found". */
  datatype Printed = Name(name: string) | NilValue | HandlerValue(handler: Rsa.RsaOaep)

  /** Where a request goes: the algorithm value that serves it, the error
      "handler for '<printed>' not found", or a method call on a nil
      interface, which panics. */
  datatype Route = Serve(algorithm: Rsa.RsaOaep) | HandlerNotFound(printed: Printed) | NilInterfaceCall

  /** CryptoRouter.Decrypt routes by the buffer's own algorithm label. */
  function RouteDecrypt(r: CryptoRouter, b: Rsa.EncryptedBuffer): (route: Route)
    ensures b.algorithm in r.algorithms ==> route == Serve(r.algorithms[b.algorithm])
    ensures b.algorithm !in r.algorithms ==> route == HandlerNotFound(Name(b.algorithm))
  {
    if b.algorithm in r.algorithms then Serve(r.algorithms[b.algorithm]) else HandlerNotFound(Name(b.algorithm))
  }

  /** CryptoRouter.Encrypt routes by the default algorithm; the error prints
      the zero (nil) algorithm value, not the missing name. */
  function RouteEncrypt(r: CryptoRouter): (route: Route)
    ensures r.defaultAlgorithm in r.algorithms ==> route == Serve(r.algorithms[r.defaultAlgorithm])
    ensures r.defaultAlgorithm !in r.algorithms ==> route == HandlerNotFound(NilValue)
  {
    if r.defaultAlgorithm in r.algorithms then Serve(r.algorithms[r.defaultAlgorithm]) else HandlerNotFound(NilValue)
  }

  /** CryptoRouter.EncryptAlgorithm as written: the lookup's test is negated,
      so a registered name is refused (printing its handler) and an
      unregistered one calls Encrypt on the nil interface. */
  function RouteEncryptAlgorithm(r: CryptoRouter, name: string): (route: Route)
    ensures name in r.algorithms ==> route == HandlerNotFound(HandlerValue(r.algorithms[name]))
    ensures name !in r.algorithms ==> route == NilInterfaceCall
  {
    if name !in r.algorithms then NilInterfaceCall else HandlerNotFound(HandlerValue(r.algorithms[name]))
  }

  /** EncryptAlgorithm with the test the surrounding methods use: a
      registered name is served by its algorithm, any other is not found. */
  function RouteEncryptAlgorithmIntended(r: CryptoRouter, name: string): (route: Route)
    ensures route.Serve? <==> name in r.algorithms
    ensures route.Serve? ==> route.algorithm == r.algorithms[name]
    ensures route != NilInterfaceCall
  {
    if name in r.algorithms then Serve(r.algorithms[name]) else HandlerNotFound(NilValue)
  }

  /** No name is ever served by EncryptAlgorithm as written: on a router
      built from a valid rsa_oaep configuration, asking for rsa_oaep is
      refused and asking for anything else panics. */
  lemma EncryptAlgorithmNeverServes(c: CryptoConfig, name: string)
    requires Built(c).Ok? && Rsa.RsaOaepName in c.configs
    ensures name == Rsa.RsaOaepName ==> RouteEncryptAlgorithm(Built(c).value, name).HandlerNotFound?
    ensures name != Rsa.RsaOaepName ==> RouteEncryptAlgorithm(Built(c).value, name) == NilInterfaceCall
    ensures RouteEncryptAlgorithmIntended(Built(c).value, Rsa.RsaOaepName).Serve?
  {
  }
}
