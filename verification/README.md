# Product catalog lifecycle, modelled in Dafny

A model of the product catalog service of a small Flask application: the
`products` table (one record per product code, with id, name, price,
optional image file name and creation time) and the media folder that holds
product images. The four JSON handlers are pure functions over a
`Catalog` value, which pairs the table, keyed by product code, with the set of
file names in the media folder:

- `Api.Create` is `add_product`. It checks fields, rejects duplicate codes,
  stores the upload under `<code><ext>`, then inserts the record with the next
  id and the clock reading it is given.
- `Api.Fetch` is `get_product`, and `Api.View` builds the object it returns.
- `Api.ListAll` is `get_all_products`. It orders the records newest first and
  maps each one to its view.
- `Api.Delete` is `delete_product`. It removes the image file when one is
  set, then removes the record.

A transition returns a `Step`: the catalog afterwards and the response (the
result value, or one of the error tags `MissingField`, `DuplicateCode`,
`NotFound`, answered with 400, 400 and 404). Every error step carries the
unchanged catalog.

Modules: `Results` (Option, Result), `Paths` (`str.rfind`, POSIX
`os.path.splitext`, the stored image name), `Models` (the Product record,
`to_dict`, id allocation, the table constraints), `Api` (the handlers) and
`Lifecycle` (properties that span several handler calls).

Modelling choices:
- `secure_filename` is a parameter `sanitize: string -> string` with no
  assumed behaviour.
- The extension is the one `os.path.splitext` computes on POSIX. That is the
  text from the last `.` after the last `/`, and only when the last path
  component has a non-dot character before that dot (so `.bashrc` has no
  extension). `Paths.SplitExtOfPlainName` shows that for names with no `/`
  and no leading dot this is the suffix from the last dot.
- `id` follows the rule SQLite uses for an `INTEGER PRIMARY KEY`: one more
  than the largest id in the table, and 1 for an empty table.
- The clock is the `now` argument of `Create`. The model orders timestamps
  but does not assume they increase from one call to the next.
- A price is the submitted text, carried as an opaque value.

What the model exposes about the code:
- Stored image names are not injective in the product code. Code `P1.png`
  with an upload that has no extension and code `P1` with a `.png` upload
  are both stored as `P1.png`. A create therefore overwrites another record's
  image, and deleting one of the two records removes the image the other
  still names (`Lifecycle.SharedImageNameLosesFile`). So "every record's
  image file exists" is not an invariant of the code. It is kept by create
  always, and by delete only while no two records share an image name.
- The product code is not sanitised. The stored name is a bare file name
  (no `/`) exactly when the code has no `/` (`Paths.StoredNameIsBareIffCodeIs`).
- Create accepts a code holding `/` (`Lifecycle.SlashCodeIsCreatedButUnroutable`),
  but the routes `/api/products/<product_code>` match one path segment only, so
  neither fetch nor delete can ever name that code. Such a record outlives
  every series of delete requests (`Lifecycle.UnroutableRecordOutlivesDeletes`).
- The code checks only that price is non-empty: it has no numeric or sign
  check. It orders the listing by `created_at` alone, so rows with equal
  timestamps can come in any order, and the model leaves that order open.

## Model

| member | source | states |
|---|---|---|
| Paths.RFind | app.py:106 | the index found holds the character and nothing after it does; -1 only when the character is absent |
| Paths.SplitExt | app.py:106 | root followed by extension gives back the whole path; the extension is empty or a dot followed by characters that are neither dots nor separators; it is non-empty exactly when, after the last separator, some non-dot character is followed by a dot |
| Paths.ExtensionCondition | app.py:106 | the test `splitext` applies (last dot after the last separator, with a non-dot before it in the final component) holds exactly when some non-dot character after the last separator is followed by a dot |
| Paths.StoredImageName | app.py:107 | the stored name starts with the product code and the rest is exactly the extension of the sanitised upload name |
| Paths.SplitExtOfPlainName | app.py:105-106 | for a name with no separator and no leading dot (the shape of a sanitised name), the extension is the suffix from the last dot, or empty when there is no dot |
| Paths.SplitExtExamples | app.py:106 | `photo.PNG` splits as `photo` + `.PNG`, `archive.tar.gz` keeps only `.gz`, and a name with no dot, a leading-dot name or a dot in a directory part give no extension |
| Paths.StoredNameIsBareIffCodeIs | models.py:77-78 | the stored image name contains a path separator exactly when the product code does |
| Paths.StoredNameCollides | app.py:105-107 | two different codes can derive the same stored image name (`P1.png` with no extension and `P1` with `.png`) |
| Models.ToDict | models.py:98-106 | the dictionary has exactly the six keys id, product_code, name, price, image_filename and created_at, each holding the record's own value (null for no image) |
| Models.DictRoundTrip | models.py:98-106 | `to_dict` loses nothing: the record is recovered from its dictionary |
| Models.NextId | models.py:41-44 | the assigned id is at least 1 and larger than every id in the table; it is 1 for an empty table and one more than the largest id otherwise |
| Models.CodesUnique | models.py:51-55 | in a valid catalog two records with the same product code are the same record |
| Api.ImageFilenameFor | app.py:103-107 | no image name unless a file with a non-empty name was uploaded; otherwise the code followed by the extension of the sanitised upload name |
| Api.Create | app.py:89-122 | missing or empty code, name or price gives MissingField, and an existing code gives DuplicateCode, both with the catalog unchanged; otherwise the new record holds exactly the submitted code, name and price, the derived image name, the given time and a fresh id, no other record changes, and the stored image name joins the file set |
| Api.ImageUrl | app.py:133-135 | a URL exists exactly when an image name is set and non-empty, and stripping the media prefix from it gives back that name |
| Api.View | app.py:137-143 | the fetched object has exactly product_code, name, price, image_url and created_at, carrying the record's values; image_url is the media path of the image name or null |
| Api.Fetch | app.py:128-143 | an absent code gives NotFound; a present code gives the view of exactly that record |
| Api.Delete | app.py:166-190 | an absent code gives NotFound with nothing changed; otherwise exactly that record goes, every other record stays as it was, and the image name (if set) leaves the file set, a file already gone not being an error |
| Api.InsertionPoint | app.py:150 | a record created at a given time goes after every strictly newer row and before the first row that is not newer |
| Api.OrderNewestFirst | app.py:150 | the query result is ordered by non-increasing created_at and lists each record of the table exactly once |
| Api.ViewsOf | app.py:151-162 | the response has one entry per row, in the same order, each that row's fetch view |
| Api.ListAll | app.py:149-163 | the list holds each record exactly once (as many entries as records), newest first, and each entry is that record's fetch view |
| Lifecycle.CreatePreservesValid | models.py:41-92 | a create keeps every column constraint: codes unique and non-empty, name and price present, image name of the form code plus extension, ids positive and distinct |
| Lifecycle.DeletePreservesValid | models.py:41-92 | a delete keeps every column constraint of the table |
| Lifecycle.FetchAfterCreate | app.py:112-143 | after a create, fetching its code returns the view of the very record the create returned: the submitted code, name and price, the derived image URL and the insert time, and every other code fetches as before |
| Lifecycle.CreateResponseBody | app.py:112-122 | the body a successful create returns is `to_dict` of the inserted record: the new id, the submitted code, name and price, the derived image name and the insert time, agreeing with a later fetch on every field both carry |
| Lifecycle.SecondCreateIsDuplicate | app.py:100-101 | after a create succeeds, a second create with the same code and filled fields is a duplicate and leaves the catalog unchanged |
| Lifecycle.FetchAfterDelete | app.py:173-187 | after a delete the code fetches as NotFound, deleting it again is NotFound and changes nothing, and every other code fetches as before |
| Lifecycle.DeleteUndoesCreate | app.py:103-120 | deleting a just-created record restores the table exactly; the file set loses the stored image name, including a same-named file that was there before |
| Lifecycle.CreatedAtNeverChanges | models.py:89-92 | a record's created_at is the one its insert wrote: a later create keeps the record and its timestamp, and a delete of another code keeps it too |
| Lifecycle.CreateKeepsImagesOnDisk | app.py:104-109 | if every record's image file was present before a create, it still is afterwards |
| Lifecycle.DeleteKeepsImagesOnDisk | app.py:179-187 | if every image file is present and no two records share an image name, every remaining record's image file is still present after a delete |
| Lifecycle.SharedImageNameLosesFile | app.py:104-109 | in three concrete steps, two records end up sharing one image name, and deleting one leaves the other naming a missing file |
| Lifecycle.NoImageScenario | app.py:103-104 | a create with no upload stores no image name, leaves the file set alone, fetches with a null image_url, and a repeat create of its code is a duplicate |
| Lifecycle.ImageScenario | app.py:104-135 | an upload named `photo.PNG` for code `P002` is stored as `P002.PNG` and served at `/media/products/P002.PNG` |
| Lifecycle.MissingFieldScenario | app.py:96-97 | an empty price, a missing code or a missing name is rejected with the catalog unchanged, whatever the upload |
| Lifecycle.UnroutableRecordOutlivesDeletes | app.py:165-187 | a record whose code holds `/` stays in the table, unchanged, through any series of deletes of codes the delete route can carry (non-empty, no `/`) |
| Lifecycle.SlashCodeIsCreatedButUnroutable | app.py:88-128 | a create of the new code `a/b` succeeds, yet `a/b` is not a code the fetch and delete routes can reach |
| Lifecycle.ImageUrlIffImage | app.py:133-135 | in a valid catalog a record's image_url is non-null exactly when it has an image name |
| Lifecycle.ListingHoldsEachRecordOnce | app.py:150-163 | a listing holds every record of the table, and each at exactly one position |
| Lifecycle.EmptyCatalogListsNothing | app.py:150-163 | an empty table lists as an empty sequence |

## Left out

- Page routes, template rendering and static image serving (`send_from_directory`) are left out. They are Flask I/O with no catalog logic.
- App configuration, the SQLite URI, creating the media folder, `db.create_all` and `app.run` are left out. They are process setup.
- Api.Create: the stored name is joined onto the media folder path and saved, but the model treats it as a flat name in the file set. A code holding `/` saves into a subfolder, and the save fails (a 500 response) when that folder does not exist. A code starting with `/`, or with a `..` path component such as `../x`, saves outside the media folder. Code `.` or `..` with an upload that has no extension names a directory, and the save fails. In all these cases the model returns Success and adds the name to the file set.
- Api.Fetch: the model looks up any code, but a request only reaches `get_product` and `delete_product` for a code the route's one-segment converter matches (`Api.Routable`: non-empty, no `/`). A code holding `/` is accepted by create yet unreachable by fetch and delete, so for such codes `Lifecycle.FetchAfterCreate` and `Lifecycle.DeleteUndoesCreate` describe handler calls no HTTP request can make; `Lifecycle.UnroutableRecordOutlivesDeletes` states what the service offers instead.
- Api.Delete: the same routing limit applies; a Flask 404 for an unroutable code is not modelled as a call of `Api.Delete`.
- File names are compared as exact strings, as on a case-sensitive file system. On a case-insensitive one (the default on macOS and Windows), names that differ only in case share one file. For example, codes `P1` and `p1` with `.png` uploads are distinct codes (the duplicate check at app.py:100 compares exactly), yet `P1.png` and `p1.png` name the same file there, so deleting `p1` removes the image `P1` still names. There, `DistinctImageNames` does not protect `Lifecycle.DeleteKeepsImagesOnDisk`, and names would have to be distinct up to case.
- Real file I/O (`image.save`, `os.path.exists`, `os.remove`) is modelled only as changes to a set of file names. The model does not track file contents, so it does not show that a create under an existing name overwrites that file's bytes.
- `secure_filename` is a parameter with no assumed behaviour. Its implementation is not part of this model.
- Api.Create: `float(price)` and the Float column are not modelled, so the model answers Success for a price that does not parse (such as `abc`), inserting the record and adding the stored image name to the file set. The source saves the upload first (app.py:109) and calls `float(price)` afterwards (app.py:115). The request then ends in an unhandled exception (a 500 response) with no record inserted, and the saved file stays in the media folder with no record naming it. Through a shared stored name, it may also have overwritten another record's image first.
- Api.Create: a failing `image.save` is not modelled either. One example is a stored name longer than the file system's limit of 255 bytes per name, which an unbounded product code can reach. The model answers Success and adds the name to the file set, while the source ends in a 500 response during the save, before any record is inserted.
- `datetime`, timezones and `isoformat` are left out. A timestamp is an integer passed in, and JSON carries it as an abstract time value.
- The column lengths `String(50)`, `String(200)` and `String(300)` are left out. Neither SQLite nor the code enforces them.
- The race between the duplicate check and the insert is left out, along with the unique constraint as arbiter under concurrent requests and the image left behind when a late insert fails. The model is sequential.
- Crash windows between the file step and the record step of create and delete are left out. Each transition is atomic in the model.
- `jsonify`, HTTP status codes and response messages are left out. Outcomes map only to the error tags and the returned record or view.
- Models.NextId: SQLite's fallback to a random unused id once the largest id reaches 2^63-1 is not modelled; ids are unbounded.
- Api.ListAll: it fixes one order among records with equal timestamps (a record is placed before earlier-listed rows of the same time), while the query leaves that order to the database; the contract promises only non-increasing `created_at`.
