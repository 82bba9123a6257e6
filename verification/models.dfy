/**
 * The `products` table: the Product record, its column constraints, the
 * insert-time identity and timestamp, and `to_dict`.
 */
module Models {
  import opened Results
  import opened Paths

  /** An abstract, totally ordered UTC instant; the clock is an input. */
  type Timestamp = int

  /** The submitted price text. The float conversion and the Float column are
      not modelled, so a price is carried as an opaque value. */
  type Price = string

  /** One row of the `products` table. */
  datatype Product = Product(
    id: nat,
    productCode: string,
    name: string,
    price: Price,
    imageFilename: Option<string>,
    createdAt: Timestamp)

  /** The values a record is serialised to. */
  datatype JsonValue =
    | JNull
    | JInt(i: int)
    | JText(s: string)
    | JPrice(p: Price)
    | JTime(t: Timestamp)

  /** A JSON object: field name to value. */
  type Dict = map<string, JsonValue>

  /** The fields of `to_dict`, and nothing else. */
  const DictKeys: set<string> :=
    {"id", "product_code", "name", "price", "image_filename", "created_at"}

  function TextOrNull(o: Option<string>): JsonValue
  {
    match o
    case None => JNull
    case Some(s) => JText(s)
  }

  /** `Product.to_dict`: exactly the six columns, each value unaltered. */
  function ToDict(p: Product): (d: Dict)
    ensures d.Keys == DictKeys
    ensures d["id"] == JInt(p.id) && d["product_code"] == JText(p.productCode)
    ensures d["name"] == JText(p.name) && d["price"] == JPrice(p.price)
    ensures d["created_at"] == JTime(p.createdAt)
    ensures p.imageFilename.None? ==> d["image_filename"] == JNull
    ensures p.imageFilename.Some? ==> d["image_filename"] == JText(p.imageFilename.value)
  {
    map[
      "id" := JInt(p.id),
      "product_code" := JText(p.productCode),
      "name" := JText(p.name),
      "price" := JPrice(p.price),
      "image_filename" := TextOrNull(p.imageFilename),
      "created_at" := JTime(p.createdAt)]
  }

  /** Reads a record back from its dictionary form; the inverse of `ToDict`. */
  function FromDict(d: Dict): Option<Product>
  {
    if d.Keys != DictKeys then None
    else
      match (d["id"], d["product_code"], d["name"], d["price"], d["image_filename"], d["created_at"])
      case (JInt(id), JText(code), JText(name), JPrice(price), JNull, JTime(t)) =>
        if id < 0 then None else Some(Product(id, code, name, price, None, t))
      case (JInt(id), JText(code), JText(name), JPrice(price), JText(f), JTime(t)) =>
        if id < 0 then None else Some(Product(id, code, name, price, Some(f), t))
      case _ => None
  }

  /** `to_dict` loses nothing: every record is recovered from its dictionary. */
  lemma DictRoundTrip(p: Product)
    ensures FromDict(ToDict(p)) == Some(p)
  {
  }

  /** Largest element of a non-empty finite set of naturals. */
  function MaxOf(s: set<nat>): (r: nat)
    requires s != {}
    ensures r in s
    ensures forall x :: x in s ==> x <= r
  {
    MaxExists(s);
    var r :| r in s && forall x :: x in s ==> x <= r;
    r
  }

  lemma {:induction false} MaxExists(s: set<nat>)
    requires s != {}
    ensures exists r :: r in s && forall x :: x in s ==> x <= r
  {
    var y :| y in s;
    if s != {y} {
      MaxExists(s - {y});
      var r :| r in s - {y} && forall x :: x in s - {y} ==> x <= r;
      var m := if r < y then y else r;
      forall x | x in s
        ensures x <= m
      {
        if x != y {
          assert x in s - {y};
        }
      }
      assert m in s;
    } else {
      assert forall x :: x in s ==> x <= y;
    }
  }

  /** The id the table assigns to the next insert. `id` is an INTEGER PRIMARY
      KEY, which SQLite allocates as one more than the largest id in the
      table (1 for an empty table). */
  function NextId(records: map<string, Product>): (r: nat)
    ensures r >= 1
    ensures forall k :: k in records ==> records[k].id < r
    ensures records == map[] ==> r == 1
    ensures records != map[] ==> exists k :: k in records && records[k].id == r - 1
  {
    var ids := set k | k in records :: records[k].id;
    assert forall k :: k in records ==> records[k].id in ids;
    if ids == {} then 1
    else MaxOf(ids) + 1
  }

  /** The catalog: the `products` table keyed by product code, and the names
      of the files in the media folder. */
  datatype Catalog = Catalog(records: map<string, Product>, files: set<string>)

  /** `f` is a name the create handler can store for `code`: the code itself
      followed by a file extension. */
  predicate IsImageNameFor(code: string, f: string)
  {
    |code| <= |f| && f[..|code|] == code && IsExtension(f[|code|..])
  }

  /** The column constraints every row satisfies. `product_code` is unique
      (as the key, shared by no two rows); `product_code`, `name` and `price`
      are non-null (and non-empty, as the create handler only inserts
      non-empty values); a present `image_filename` is the row's code followed
      by an extension; ids are positive and distinct. */
  ghost predicate Valid(c: Catalog)
  {
    && (forall k :: k in c.records ==> c.records[k].productCode == k)
    && (forall k :: k in c.records ==> k != "" && c.records[k].name != "" && c.records[k].price != "")
    && (forall k :: k in c.records && c.records[k].imageFilename.Some? ==> IsImageNameFor(k, c.records[k].imageFilename.value))
    && (forall k :: k in c.records ==> c.records[k].id >= 1)
    && (forall k, k' :: k in c.records && k' in c.records && k != k' ==> c.records[k].id != c.records[k'].id)
  }

  /** Within a valid catalog a product code identifies at most one record. */
  lemma CodesUnique(c: Catalog, k: string, k': string)
    requires Valid(c)
    requires k in c.records && k' in c.records
    requires c.records[k].productCode == c.records[k'].productCode
    ensures k == k'
  {
  }

  /** The image file names the catalog's records reference. */
  function ReferencedFiles(c: Catalog): (s: set<string>)
    ensures forall f :: f in s <==> exists k :: k in c.records && c.records[k].imageFilename == Some(f)
  {
    set k | k in c.records && c.records[k].imageFilename.Some? :: c.records[k].imageFilename.value
  }

  /** Every image name a record holds names a file in the media folder. */
  ghost predicate ImagesOnDisk(c: Catalog)
  {
    ReferencedFiles(c) <= c.files
  }

  /** No two records share an image file name. */
  ghost predicate DistinctImageNames(c: Catalog)
  {
    forall k, k' :: k in c.records && k' in c.records && k != k' && c.records[k].imageFilename.Some? ==>
      c.records[k].imageFilename != c.records[k'].imageFilename
  }
}
