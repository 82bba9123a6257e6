/**
 * Properties of the product lifecycle across handler calls: the table
 * constraints are kept, a created record is fetched back unchanged, delete
 * undoes create, and the coupling between records and image files.
 */
module Lifecycle {
  import opened Results
  import opened Paths
  import opened Models
  import opened Api

  /** A create keeps every column constraint of the table. */
  lemma CreatePreservesValid(c: Catalog, form: Form, sanitize: string -> string, now: Timestamp)
    requires Valid(c)
    ensures Valid(Create(c, form, sanitize, now).catalog)
  {
  }

  /** A delete keeps every column constraint of the table. */
  lemma DeletePreservesValid(c: Catalog, code: string)
    requires Valid(c)
    ensures Valid(Delete(c, code).catalog)
  {
  }

  /** After a successful create, fetching the code returns exactly the
      submitted code, name and price, the derived image URL and the insert
      time; every other code fetches as before. */
  lemma FetchAfterCreate(c: Catalog, form: Form, sanitize: string -> string, now: Timestamp)
    requires Create(c, form, sanitize, now).response.Success?
    ensures
      var r := Create(c, form, sanitize, now);
      var code := form.productCode.value;
      var d := Fetch(r.catalog, code);
      && d == Success(View(r.response.value))
      && d.value["product_code"] == JText(code)
      && d.value["name"] == JText(form.name.value)
      && d.value["price"] == JPrice(form.price.value)
      && d.value["created_at"] == JTime(now)
      && d.value["image_url"] == TextOrNull(ImageUrl(ImageFilenameFor(code, form.image, sanitize)))
      && (forall k :: k != code ==> Fetch(r.catalog, k) == Fetch(c, k))
  {
  }

  /** The 201 body of a create is `to_dict` of the inserted record: the
      submitted code, name and price, the derived image name, the insert time
      and the new id; on every field a fetch also returns it agrees with that
      fetch. */
  lemma CreateResponseBody(c: Catalog, form: Form, sanitize: string -> string, now: Timestamp)
    requires Create(c, form, sanitize, now).response.Success?
    ensures
      var r := Create(c, form, sanitize, now);
      var body := ToDict(r.response.value);
      var fetched := Fetch(r.catalog, form.productCode.value);
      && body.Keys == DictKeys
      && body["id"] == JInt(NextId(c.records))
      && body["product_code"] == JText(form.productCode.value)
      && body["name"] == JText(form.name.value)
      && body["price"] == JPrice(form.price.value)
      && body["image_filename"] == TextOrNull(ImageFilenameFor(form.productCode.value, form.image, sanitize))
      && body["created_at"] == JTime(now)
      && fetched.Success?
      && (forall key :: key in DictKeys && key in ViewKeys ==> body[key] == fetched.value[key])
  {
  }

  /** A create with a code that already has a record is a duplicate and
      leaves the catalog as it was, so the second of two creates with the
      same code always fails. */
  lemma SecondCreateIsDuplicate(c: Catalog, form: Form, form': Form, sanitize: string -> string, now: Timestamp, now': Timestamp)
    requires Create(c, form, sanitize, now).response.Success?
    requires form'.productCode == form.productCode && Filled(form'.name) && Filled(form'.price)
    ensures
      var c1 := Create(c, form, sanitize, now).catalog;
      var r2 := Create(c1, form', sanitize, now');
      r2.response == Failure(DuplicateCode) && r2.catalog == c1
  {
  }

  /** After a successful delete the code fetches as NotFound, a second delete
      of it is NotFound too, and every other code fetches as before. */
  lemma FetchAfterDelete(c: Catalog, code: string)
    requires Delete(c, code).response.Success?
    ensures
      var c1 := Delete(c, code).catalog;
      && Fetch(c1, code) == Failure(NotFound)
      && Delete(c1, code) == Step(c1, Failure(NotFound))
      && (forall k :: k != code ==> Fetch(c1, k) == Fetch(c, k))
  {
  }

  /** Deleting what was just created restores the table exactly; the media
      folder loses the stored image name, even when a file of that name was
      already there before the create. */
  lemma DeleteUndoesCreate(c: Catalog, form: Form, sanitize: string -> string, now: Timestamp)
    requires Create(c, form, sanitize, now).response.Success?
    ensures
      var r := Create(c, form, sanitize, now);
      var f := r.response.value.imageFilename;
      var c2 := Delete(r.catalog, form.productCode.value);
      && c2.response.Success?
      && c2.catalog.records == c.records
      && (f.None? ==> c2.catalog.files == c.files)
      && (f.Some? ==> c2.catalog.files == c.files - {f.value})
  {
  }

  /** `created_at` is written once, by the insert: neither a create nor a
      delete alters the timestamp (or any other field) of a record that
      exists before and after it. */
  lemma CreatedAtNeverChanges(c: Catalog, form: Form, sanitize: string -> string, now: Timestamp, code: string, k: string)
    requires k in c.records
    ensures var c1 := Create(c, form, sanitize, now).catalog;
      k in c1.records && c1.records[k].createdAt == c.records[k].createdAt
    ensures var c2 := Delete(c, code).catalog;
      k in c2.records ==> c2.records[k].createdAt == c.records[k].createdAt
  {
  }

  /** A create never breaks the link from records to their image files. */
  lemma CreateKeepsImagesOnDisk(c: Catalog, form: Form, sanitize: string -> string, now: Timestamp)
    requires ImagesOnDisk(c)
    ensures ImagesOnDisk(Create(c, form, sanitize, now).catalog)
  {
  }

  /** When no two records share an image name, a delete leaves every other
      record's image file in place. */
  lemma DeleteKeepsImagesOnDisk(c: Catalog, code: string)
    requires ImagesOnDisk(c) && DistinctImageNames(c)
    ensures ImagesOnDisk(Delete(c, code).catalog)
  {
  }

  /** A sanitiser that keeps names as they are, for the concrete scenario below. */
  const Identity: string -> string := (s: string) => s

  /** Two creates whose stored image names coincide, and the records they insert. */
  const WidgetForm := Form(Some("P1"), Some("Widget"), Some("1"), Some(Upload("photo.png")))
  const GadgetForm := Form(Some("P1.png"), Some("Gadget"), Some("2"), Some(Upload("photo")))
  const Widget := Product(1, "P1", "Widget", "1", Some("P1.png"), 1)
  const Gadget := Product(2, "P1.png", "Gadget", "2", Some("P1.png"), 2)

  /** The first create stores "photo.png" as "P1.png" under id 1. */
  lemma WidgetCreated()
    ensures Create(Catalog(map[], {}), WidgetForm, Identity, 1).catalog == Catalog(map["P1" := Widget], {"P1.png"})
  {
    StoredNameCollides();
  }

  /** The second create stores "photo" as "P1.png" too, under id 2. */
  lemma GadgetCreated()
    ensures Create(Catalog(map["P1" := Widget], {"P1.png"}), GadgetForm, Identity, 2).catalog
      == Catalog(map["P1" := Widget, "P1.png" := Gadget], {"P1.png"})
  {
    StoredNameCollides();
    var m := map["P1" := Widget];
    assert forall k :: k in m ==> k == "P1";
    var k :| k in m && m[k].id == NextId(m) - 1;
    assert m[k] == Widget;
  }

  /** Without distinct image names a delete can remove another record's
      image: "P1" with "photo.png" and "P1.png" with "photo" are both stored
      as "P1.png", and deleting "P1.png" leaves "P1" naming a missing file. */
  lemma SharedImageNameLosesFile()
    ensures
      var c1 := Create(Catalog(map[], {}), WidgetForm, Identity, 1).catalog;
      var c2 := Create(c1, GadgetForm, Identity, 2).catalog;
      var c3 := Delete(c2, "P1.png").catalog;
      && ImagesOnDisk(c2)
      && "P1" in c3.records
      && c3.records["P1"].imageFilename == Some("P1.png")
      && !ImagesOnDisk(c3)
  {
    WidgetCreated();
    GadgetCreated();
    var c1 := Create(Catalog(map[], {}), WidgetForm, Identity, 1).catalog;
    var c2 := Create(c1, GadgetForm, Identity, 2).catalog;
    assert c2 == Catalog(map["P1" := Widget, "P1.png" := Gadget], {"P1.png"});
    assert ReferencedFiles(c2) == {"P1.png"};
    var c3 := Delete(c2, "P1.png").catalog;
    assert c3 == Catalog(map["P1" := Widget], {});
    assert "P1.png" in ReferencedFiles(c3);
  }

  /** Create with no image: the record has no image name and fetches with a
      null image URL; creating the same code again is a duplicate. */
  lemma NoImageScenario(c: Catalog, sanitize: string -> string, now: Timestamp, later: Timestamp)
    requires "P001" !in c.records
    ensures
      var form := Form(Some("P001"), Some("Widget"), Some("9.99"), None);
      var r := Create(c, form, sanitize, now);
      && r.response.Success?
      && r.response.value.imageFilename.None?
      && r.catalog.files == c.files
      && Fetch(r.catalog, "P001").Success?
      && Fetch(r.catalog, "P001").value["image_url"] == JNull
      && Create(r.catalog, form, sanitize, later).response == Failure(DuplicateCode)
  {
  }

  /** Create with an upload named "photo.PNG" (which sanitising leaves as it
      is): the image is stored as "P002.PNG" and served from
      "/media/products/P002.PNG". */
  lemma ImageScenario(c: Catalog, sanitize: string -> string, now: Timestamp)
    requires "P002" !in c.records
    requires sanitize("photo.PNG") == "photo.PNG"
    ensures
      var form := Form(Some("P002"), Some("Gadget"), Some("19.5"), Some(Upload("photo.PNG")));
      var r := Create(c, form, sanitize, now);
      && r.response.Success?
      && r.response.value.imageFilename == Some("P002.PNG")
      && r.catalog.files == c.files + {"P002.PNG"}
      && Fetch(r.catalog, "P002").Success?
      && Fetch(r.catalog, "P002").value["image_url"] == JText("/media/products/P002.PNG")
  {
    SplitExtExamples();
    assert "P002" + ".PNG" == "P002.PNG";
    assert MediaUrlPrefix + "P002.PNG" == "/media/products/P002.PNG";
  }

  /** Create with missing or empty fields: the form is rejected whatever the
      catalog holds and whatever the upload, and nothing changes. */
  lemma MissingFieldScenario(c: Catalog, image: Option<Upload>, sanitize: string -> string, now: Timestamp)
    ensures Create(c, Form(Some("P003"), Some("Thing"), Some(""), image), sanitize, now) == Step(c, Failure(MissingField))
    ensures Create(c, Form(None, Some("Thing"), Some("1"), image), sanitize, now) == Step(c, Failure(MissingField))
    ensures Create(c, Form(Some("P003"), None, Some("1"), image), sanitize, now) == Step(c, Failure(MissingField))
  {
  }

  /** The catalog after a series of delete requests, in order. */
  function DeleteEach(c: Catalog, codes: seq<string>): Catalog
    decreases |codes|
  {
    if codes == [] then c else DeleteEach(Delete(c, codes[0]).catalog, codes[1..])
  }

  /** A code holding '/' is accepted by create, yet the fetch and delete
      routes cannot name it: once created, its record is kept by every series
      of delete requests the routes can carry. */
  lemma {:induction false} UnroutableRecordOutlivesDeletes(c: Catalog, k: string, codes: seq<string>)
    requires k in c.records && !Routable(k)
    requires forall i :: 0 <= i < |codes| ==> Routable(codes[i])
    ensures k in DeleteEach(c, codes).records
    ensures DeleteEach(c, codes).records[k] == c.records[k]
    decreases |codes|
  {
    if codes != [] {
      var c1 := Delete(c, codes[0]).catalog;
      assert codes[0] != k;
      UnroutableRecordOutlivesDeletes(c1, k, codes[1..]);
    }
  }

  /** Creating code "a/b" succeeds whenever the code is new, and the code is
      not one the fetch and delete routes can reach. */
  lemma SlashCodeIsCreatedButUnroutable(c: Catalog, sanitize: string -> string, now: Timestamp)
    requires "a/b" !in c.records
    ensures Create(c, Form(Some("a/b"), Some("Thing"), Some("1"), None), sanitize, now).response.Success?
    ensures !Routable("a/b")
  {
    assert "a/b"[1] == '/';
  }

  /** In a valid catalog a listed record's image URL is set exactly when the
      record has an image name. */
  lemma ImageUrlIffImage(c: Catalog, k: string)
    requires Valid(c) && k in c.records
    ensures View(c.records[k])["image_url"] != JNull <==> c.records[k].imageFilename.Some?
  {
  }

  /** A listing holds every record, and each at exactly one position. */
  lemma ListingHoldsEachRecordOnce(c: Catalog, rows: seq<Product>, k: string)
    requires ListsNewestFirst(c, rows, c.records.Keys)
    requires k in c.records
    ensures exists i :: 0 <= i < |rows| && rows[i] == c.records[k]
    ensures forall i, j :: 0 <= i < |rows| && 0 <= j < |rows| && rows[i] == c.records[k] && rows[j] == c.records[k] ==> i == j
  {
  }

  /** An empty catalog lists as an empty sequence. */
  lemma EmptyCatalogListsNothing(c: Catalog, rows: seq<Product>)
    requires c.records == map[]
    requires ListsNewestFirst(c, rows, c.records.Keys)
    ensures rows == []
  {
    CodesOfDistinctCount(rows);
  }
}
