/** The conversions between driver values and domain values.  The files
    domain/persistence/utils.go, account_manager/persistence/utils.go and
    account_ms/persistence/utils.go hold the same two loops, differing only
    in the package the DatabaseID type is imported from, which shows in the
    cast error's text; this module models all three. */
module MongoUtils {
  import opened Outcomes
  import DatabaseId

  type Byte = b: int | 0 <= b < 256

  /** primitive.ObjectID: a 12-octet array. */
  datatype ObjectId = ObjectId(bytes: seq<Byte>)
  const ObjectIdSize: nat := 12

  /** The dynamic value held by an interface{} element: an ObjectID, or any
      other value (known here by its printed form). */
  datatype Value = ObjectIdValue(id: ObjectId) | OtherValue(printed: string)

  const HexDigits: string := "0123456789abcdef"

  /** ObjectID.Hex: two lower-case hex digits per octet, high nibble first. */
  function Hex(bytes: seq<Byte>): (h: string)
    ensures |h| == 2 * |bytes|
    ensures forall i :: 0 <= i < |h| ==> h[i] in HexDigits
  {
    if bytes == [] then ""
    else [HexDigits[bytes[0] / 16], HexDigits[bytes[0] % 16]] + Hex(bytes[1..])
  }

  /** The package DatabaseID comes from: domain/models (imported as
      models or dModels, printed "models" either way) or domain. */
  datatype IdPackage = ModelsPackage | DomainPackage

  /** The error newCastError(primitive.ObjectID{}, DatabaseID("")), with the
      types as %T prints them. */
  datatype CastError = CastError(from: string, to: string)

  function IdCastError(pkg: IdPackage): (e: CastError)
    ensures e.from == "primitive.ObjectID"
    ensures pkg.ModelsPackage? <==> e.to == "models.DatabaseID"
    ensures pkg.DomainPackage? <==> e.to == "domain.DatabaseID"
  {
    match pkg
    case ModelsPackage => CastError("primitive.ObjectID", "models.DatabaseID")
    case DomainPackage => CastError("primitive.ObjectID", "domain.DatabaseID")
  }

  /** convertMongoIDsToDatabaseIDs: every element must be an ObjectID, which
      becomes its hex form in the same position; the first other value
      aborts with the cast error and no partial list. */
  method ConvertMongoIdsToDatabaseIds(pkg: IdPackage, ids: seq<Value>) returns (r: Result<seq<DatabaseId.DatabaseId>, CastError>)
    ensures r.Ok? <==> forall i :: 0 <= i < |ids| ==> ids[i].ObjectIdValue?
    ensures r.Ok? ==> |r.value| == |ids| && forall i :: 0 <= i < |ids| ==> r.value[i] == Hex(ids[i].id.bytes)
    ensures r.Err? ==> r.error == IdCastError(pkg)
  {
    var buf: seq<DatabaseId.DatabaseId> := [];
    for i := 0 to |ids|
      invariant |buf| == i
      invariant forall j :: 0 <= j < i ==> ids[j].ObjectIdValue? && buf[j] == Hex(ids[j].id.bytes)
    {
      match ids[i]
      case ObjectIdValue(id) =>
        buf := buf + [Hex(id.bytes)];
      case OtherValue(_) =>
        return Err(IdCastError(pkg));
    }
    return Ok(buf);
  }

  /** A converted ObjectID is 24 characters long, so the DatabaseID length
      rule (empty or 40) refuses every identifier this conversion yields. */
  lemma ConvertedIdsAreNotValidDatabaseIds(id: ObjectId)
    requires |id.bytes| == ObjectIdSize
    ensures |Hex(id.bytes)| == 24
    ensures DatabaseId.Validate(Hex(id.bytes)).Some?
  {
  }

  /** bson.E: one key/value pair of an index specification. */
  datatype Element<V> = Element(key: string, value: V)

  /** mongo.IndexModel with only its keys set. */
  datatype IndexModel<V> = IndexModel(keys: seq<Element<V>>)

  /** The keys list holds exactly the map's pairs, each key once, in some
      order. */
  predicate Lists<V(==)>(keys: seq<Element<V>>, m: map<string, V>)
  {
    && |keys| == |m|
    && (forall j :: 0 <= j < |keys| ==> keys[j].key in m && m[keys[j].key] == keys[j].value)
    && (forall j, l :: 0 <= j < l < |keys| ==> keys[j].key != keys[l].key)
    && (forall k :: k in m ==> exists j :: 0 <= j < |keys| && keys[j].key == k)
  }

  /** The inner loop: the map's entries in Go's unspecified iteration order. */
  method KeysOf<V(==)>(m: map<string, V>) returns (keys: seq<Element<V>>)
    ensures Lists(keys, m)
  {
    keys := [];
    var remaining := m.Keys;
    while remaining != {}
      invariant remaining <= m.Keys
      invariant |keys| + |remaining| == |m|
      invariant forall j :: 0 <= j < |keys| ==> keys[j].key in m && keys[j].key !in remaining && m[keys[j].key] == keys[j].value
      invariant forall j, l :: 0 <= j < l < |keys| ==> keys[j].key != keys[l].key
      invariant forall k :: k in m && k !in remaining ==> exists j :: 0 <= j < |keys| && keys[j].key == k
      decreases |remaining|
    {
      var k :| k in remaining;
      var before := keys;
      keys := keys + [Element(k, m[k])];
      remaining := remaining - {k};
      forall k' | k' in m && k' !in remaining
        ensures exists j :: 0 <= j < |keys| && keys[j].key == k'
      {
        if k' == k {
          assert keys[|before|].key == k';
        } else {
          var j :| 0 <= j < |before| && before[j].key == k';
          assert keys[j].key == k';
        }
      }
    }
  }

  /** convertGenericIndexesToMongo: one IndexModel per map, in input order,
      each listing exactly its map's pairs. */
  method ConvertGenericIndexesToMongo<V(==)>(indexes: seq<map<string, V>>) returns (buf: seq<IndexModel<V>>)
    ensures |buf| == |indexes|
    ensures forall i :: 0 <= i < |indexes| ==> Lists(buf[i].keys, indexes[i])
  {
    buf := [];
    for i := 0 to |indexes|
      invariant |buf| == i
      invariant forall j :: 0 <= j < i ==> Lists(buf[j].keys, indexes[j])
    {
      var keys := KeysOf(indexes[i]);
      buf := buf + [IndexModel(keys)];
    }
  }
}
