/**
 * The JSON API handlers of the catalog service (`add_product`,
 * `get_product`, `get_all_products`, `delete_product`) as transitions and
 * queries over a `Catalog`: the `products` table plus the set of file names
 * in the media folder.
 */
module Api {
  import opened Results
  import opened Paths
  import opened Models

  /** An uploaded file part; only its client-supplied name matters here. */
  datatype Upload = Upload(filename: string)

  /** The multipart form of a create request; an absent field is None. */
  datatype Form = Form(
    productCode: Option<string>,
    name: Option<string>,
    price: Option<string>,
    image: Option<Upload>)

  /** The error outcomes the handlers report (400, 400 and 404 respectively). */
  datatype Error = MissingField | DuplicateCode | NotFound

  /** A state transition: the catalog afterwards and the response. */
  datatype Step<+T> = Step(catalog: Catalog, response: Result<T, Error>)

  /** The URL path under which stored images are served. */
  const MediaUrlPrefix: string := "/media/products/"

  /** The fields of a fetch or list entry, and nothing else. */
  const ViewKeys: set<string> := {"product_code", "name", "price", "image_url", "created_at"}

  /** Python truthiness of a form value: present and not the empty string. */
  predicate Filled(field: Option<string>)
  {
    field.Some? && field.value != ""
  }

  /** A product code the `/api/products/<product_code>` routes can reach:
      Flask's default string converter matches one non-empty path segment,
      so a code holding '/' never gets to `get_product` or `delete_product`. */
  predicate Routable(code: string)
  {
    code != "" && '/' !in code
  }

  /** The `image_filename` a create stores: None unless a file with a
      non-empty name was uploaded, otherwise the product code followed by the
      extension of the sanitised upload name. */
  function ImageFilenameFor(code: string, image: Option<Upload>, sanitize: string -> string): (r: Option<string>)
    ensures r.Some? <==> image.Some? && image.value.filename != ""
    ensures r.Some? ==> IsImageNameFor(code, r.value)
    ensures r.Some? ==> r.value == StoredImageName(code, sanitize(image.value.filename))
  {
    if image.Some? && image.value.filename != "" then
      var ext := SplitExt(sanitize(image.value.filename)).1;
      assert (code + ext)[..|code|] == code && (code + ext)[|code|..] == ext;
      Some(code + ext)
    else
      None
  }

  /**
   * `add_product`. A missing or empty code, name or price is rejected, then
   * a code that already has a record; otherwise the upload (if any) is saved
   * under its derived name and the record is inserted with the next id and
   * the insert-time clock reading `now`.
   */
  function Create(c: Catalog, form: Form, sanitize: string -> string, now: Timestamp): (r: Step<Product>)
    ensures !(Filled(form.productCode) && Filled(form.name) && Filled(form.price)) ==>
      r.response == Failure(MissingField)
    ensures Filled(form.productCode) && Filled(form.name) && Filled(form.price) && form.productCode.value in c.records ==>
      r.response == Failure(DuplicateCode)
    ensures r.response.Failure? ==> r.catalog == c
    ensures r.response.Success? <==>
      Filled(form.productCode) && Filled(form.name) && Filled(form.price) && form.productCode.value !in c.records
    ensures r.response.Success? ==>
      var p := r.response.value;
      && p.productCode == form.productCode.value
      && p.name == form.name.value
      && p.price == form.price.value
      && p.imageFilename == ImageFilenameFor(p.productCode, form.image, sanitize)
      && p.createdAt == now
      && p.id >= 1
      && (forall k :: k in c.records ==> c.records[k].id < p.id)
      && r.catalog.records == c.records[p.productCode := p]
      && (p.imageFilename.None? ==> r.catalog.files == c.files)
      && (p.imageFilename.Some? ==> r.catalog.files == c.files + {p.imageFilename.value})
  {
    if !Filled(form.productCode) || !Filled(form.name) || !Filled(form.price) then
      Step(c, Failure(MissingField))
    else
      var code := form.productCode.value;
      if code in c.records then
        Step(c, Failure(DuplicateCode))
      else
        var imageFilename := ImageFilenameFor(code, form.image, sanitize);
        var files := if imageFilename.Some? then c.files + {imageFilename.value} else c.files;
        var p := Product(NextId(c.records), code, form.name.value, form.price.value, imageFilename, now);
        Step(Catalog(c.records[code := p], files), Success(p))
  }

  /** The `image_url` derived from a stored name: the media path followed by
      the name when it is set and non-empty, None otherwise. */
  function ImageUrl(imageFilename: Option<string>): (r: Option<string>)
    ensures r.Some? <==> imageFilename.Some? && imageFilename.value != ""
    ensures r.Some? ==>
      && |MediaUrlPrefix| <= |r.value|
      && r.value[..|MediaUrlPrefix|] == MediaUrlPrefix
      && r.value[|MediaUrlPrefix|..] == imageFilename.value
  {
    if imageFilename.Some? && imageFilename.value != "" then
      var url := MediaUrlPrefix + imageFilename.value;
      assert url[..|MediaUrlPrefix|] == MediaUrlPrefix && url[|MediaUrlPrefix|..] == imageFilename.value;
      Some(url)
    else
      None
  }

  /** The object `get_product` and `get_all_products` return for a record:
      its code, name, price, image URL and creation time, and nothing else
      (neither the id nor the stored file name). */
  function View(p: Product): (d: Dict)
    ensures d.Keys == ViewKeys
    ensures d["product_code"] == JText(p.productCode)
    ensures d["name"] == JText(p.name)
    ensures d["price"] == JPrice(p.price)
    ensures d["created_at"] == JTime(p.createdAt)
    ensures p.imageFilename.Some? && p.imageFilename.value != "" ==>
      d["image_url"] == JText(MediaUrlPrefix + p.imageFilename.value)
    ensures p.imageFilename.None? || p.imageFilename.value == "" ==> d["image_url"] == JNull
  {
    map[
      "product_code" := JText(p.productCode),
      "name" := JText(p.name),
      "price" := JPrice(p.price),
      "image_url" := TextOrNull(ImageUrl(p.imageFilename)),
      "created_at" := JTime(p.createdAt)]
  }

  /** `get_product`: the view of the record with this exact code, or NotFound. */
  function Fetch(c: Catalog, code: string): (r: Result<Dict, Error>)
    ensures code !in c.records <==> r == Failure(NotFound)
    ensures code in c.records ==> r == Success(View(c.records[code]))
  {
    if code in c.records then Success(View(c.records[code])) else Failure(NotFound)
  }

  /**
   * `delete_product`. An absent code is NotFound and changes nothing;
   * otherwise the record's image file is removed if it is set and present,
   * then the record is removed.
   */
  function Delete(c: Catalog, code: string): (r: Step<()>)
    ensures code !in c.records <==> r.response.Failure?
    ensures r.response.Failure? ==> r.response.error == NotFound && r.catalog == c
    ensures r.response.Success? ==>
      && r.catalog.records.Keys == c.records.Keys - {code}
      && (forall k :: k in r.catalog.records ==> r.catalog.records[k] == c.records[k])
      && var p := c.records[code];
         (if p.imageFilename.Some? && p.imageFilename.value != ""
          then r.catalog.files == c.files - {p.imageFilename.value}
          else r.catalog.files == c.files)
  {
    if code !in c.records then
      Step(c, Failure(NotFound))
    else
      var p := c.records[code];
      var files :=
        if p.imageFilename.Some? && p.imageFilename.value != "" && p.imageFilename.value in c.files
        then c.files - {p.imageFilename.value}
        else c.files;
      Step(Catalog(c.records - {code}, files), Success(()))
  }

  /** Rows ordered by non-increasing creation time. */
  predicate NewestFirst(rows: seq<Product>)
  {
    forall i, j :: 0 <= i < j < |rows| ==> rows[i].createdAt >= rows[j].createdAt
  }

  /** The codes of the rows of a sequence. */
  function CodesOf(rows: seq<Product>): set<string>
  {
    set i | 0 <= i < |rows| :: rows[i].productCode
  }

  /** `rows` lists, newest first, each record whose code is in `codes` exactly once. */
  ghost predicate ListsNewestFirst(c: Catalog, rows: seq<Product>, codes: set<string>)
  {
    && NewestFirst(rows)
    && CodesOf(rows) == codes
    && (forall i :: 0 <= i < |rows| ==> rows[i].productCode in c.records && c.records[rows[i].productCode] == rows[i])
    && (forall i, j :: 0 <= i < j < |rows| ==> rows[i].productCode != rows[j].productCode)
  }

  /** Where a row created at `t` goes in a newest-first sequence: after every
      strictly newer row, before the first row that is not newer. */
  function InsertionPoint(rows: seq<Product>, t: Timestamp): (i: nat)
    ensures i <= |rows|
    ensures forall j :: 0 <= j < i ==> rows[j].createdAt > t
    ensures i < |rows| ==> rows[i].createdAt <= t
  {
    if |rows| == 0 || rows[0].createdAt <= t then 0
    else 1 + InsertionPoint(rows[1..], t)
  }

  /** `rows` with `p` placed at its insertion point. */
  function InsertNewestFirst(rows: seq<Product>, p: Product): (r: seq<Product>)
    ensures |r| == |rows| + 1
  {
    var i := InsertionPoint(rows, p.createdAt);
    rows[..i] + [p] + rows[i..]
  }

  /** Index-wise description of an insertion: earlier rows stay, `p` sits at
      the insertion point, later rows shift up by one. */
  lemma InsertShape(rows: seq<Product>, p: Product)
    ensures
      var i := InsertionPoint(rows, p.createdAt);
      var r := InsertNewestFirst(rows, p);
      && r[i] == p
      && (forall j :: 0 <= j < i ==> r[j] == rows[j])
      && (forall j :: i < j < |r| ==> r[j] == rows[j - 1])
  {
  }

  /** Insertion at the insertion point keeps a sequence newest first. */
  lemma InsertKeepsOrder(rows: seq<Product>, p: Product)
    requires NewestFirst(rows)
    ensures NewestFirst(InsertNewestFirst(rows, p))
  {
  }

  /** Insertion adds exactly the new row's code to the codes listed. */
  lemma InsertAddsCode(rows: seq<Product>, p: Product)
    ensures CodesOf(InsertNewestFirst(rows, p)) == CodesOf(rows) + {p.productCode}
  {
    var i := InsertionPoint(rows, p.createdAt);
    var r := InsertNewestFirst(rows, p);
    InsertShape(rows, p);
    forall x | x in CodesOf(r)
      ensures x in CodesOf(rows) + {p.productCode}
    {
      var j :| 0 <= j < |r| && r[j].productCode == x;
      if j < i {
        assert rows[j].productCode == x;
      } else if j > i {
        assert rows[j - 1].productCode == x;
      }
    }
    forall x | x in CodesOf(rows) + {p.productCode}
      ensures x in CodesOf(r)
    {
      if x == p.productCode {
        assert r[i].productCode == x;
      } else {
        var j :| 0 <= j < |rows| && rows[j].productCode == x;
        if j < i {
          assert r[j].productCode == x;
        } else {
          assert r[j + 1].productCode == x;
        }
      }
    }
  }

  /** Inserting a row whose code is not yet listed keeps codes distinct. */
  lemma InsertKeepsCodesDistinct(rows: seq<Product>, p: Product)
    requires forall i, j :: 0 <= i < j < |rows| ==> rows[i].productCode != rows[j].productCode
    requires p.productCode !in CodesOf(rows)
    ensures var r := InsertNewestFirst(rows, p);
      forall i, j :: 0 <= i < j < |r| ==> r[i].productCode != r[j].productCode
  {
  }

  /** Inserting the record of a not-yet-listed code lists one more code. */
  lemma InsertKeepsListing(c: Catalog, rows: seq<Product>, codes: set<string>, k: string)
    requires ListsNewestFirst(c, rows, codes)
    requires k in c.records && c.records[k].productCode == k && k !in codes
    ensures ListsNewestFirst(c, InsertNewestFirst(rows, c.records[k]), codes + {k})
  {
    var p := c.records[k];
    InsertKeepsOrder(rows, p);
    InsertAddsCode(rows, p);
    InsertKeepsCodesDistinct(rows, p);
    InsertShape(rows, p);
  }

  /** A distinct-coded sequence has as many codes as rows. */
  lemma {:induction false} CodesOfDistinctCount(rows: seq<Product>)
    requires forall i, j :: 0 <= i < j < |rows| ==> rows[i].productCode != rows[j].productCode
    ensures |CodesOf(rows)| == |rows|
  {
    if |rows| > 0 {
      var last := |rows| - 1;
      var init := rows[..last];
      CodesOfDistinctCount(init);
      assert CodesOf(rows) == CodesOf(init) + {rows[last].productCode} by {
        forall x | x in CodesOf(rows)
          ensures x in CodesOf(init) + {rows[last].productCode}
        {
          var j :| 0 <= j < |rows| && rows[j].productCode == x;
          if j < last {
            assert init[j].productCode == x;
          }
        }
        forall x | x in CodesOf(init)
          ensures x in CodesOf(rows)
        {
          var j :| 0 <= j < |init| && init[j].productCode == x;
          assert rows[j].productCode == x;
        }
      }
      assert rows[last].productCode !in CodesOf(init) by {
        forall j | 0 <= j < |init|
          ensures init[j].productCode != rows[last].productCode
        {
          assert rows[j] == init[j];
        }
      }
    }
  }

  /** The `ORDER BY created_at DESC` query: every record, newest first. */
  method OrderNewestFirst(c: Catalog) returns (rows: seq<Product>)
    requires forall k :: k in c.records ==> c.records[k].productCode == k
    ensures ListsNewestFirst(c, rows, c.records.Keys)
  {
    rows := [];
    var done: set<string> := {};
    var rest := c.records.Keys;
    while rest != {}
      invariant done + rest == c.records.Keys
      invariant done !! rest
      invariant ListsNewestFirst(c, rows, done)
      decreases |rest|
    {
      var k :| k in rest;
      InsertKeepsListing(c, rows, done, k);
      rows := InsertNewestFirst(rows, c.records[k]);
      done := done + {k};
      rest := rest - {k};
    }
  }

  /** The response entries of a listing: each row's fetch view, in order. */
  method ViewsOf(rows: seq<Product>) returns (views: seq<Dict>)
    ensures |views| == |rows|
    ensures forall i :: 0 <= i < |rows| ==> views[i] == View(rows[i])
  {
    views := [];
    var n := 0;
    while n < |rows|
      invariant n <= |rows|
      invariant |views| == n
      invariant forall i :: 0 <= i < n ==> views[i] == View(rows[i])
    {
      views := views + [View(rows[n])];
      n := n + 1;
    }
  }

  /**
   * `get_all_products`: every record, ordered newest first by `created_at`,
   * each as its fetch view. Rows with equal timestamps may come in any order.
   */
  method ListAll(c: Catalog) returns (rows: seq<Product>, views: seq<Dict>)
    requires forall k :: k in c.records ==> c.records[k].productCode == k
    ensures ListsNewestFirst(c, rows, c.records.Keys)
    ensures |rows| == |c.records|
    ensures |views| == |rows|
    ensures forall i :: 0 <= i < |rows| ==> views[i] == View(rows[i])
  {
    rows := OrderNewestFirst(c);
    CodesOfDistinctCount(rows);
    assert |c.records.Keys| == |c.records|;
    views := ViewsOf(rows);
  }
}
