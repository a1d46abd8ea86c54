# Photo portfolio backend: listing, order assignment and pruning

A Dafny model of the sequential core of a small Django photo-gallery
backend. The database table of photos is an in-memory sequence of records;
file storage is the set of stored file names. Three pieces are modelled:

- **Listing** (`PhotoList` in `backend/portfolio/views.py`), in module `Listing`.
  `get_queryset` orders all photos by `order` descending, then by `id`
  descending. When the `folder` parameter is non-empty it keeps only photos
  whose folder has that slug. `paginate` parses `limit` and `offset`
  leniently: bad text gives 50 and 0. `limit` is capped at 200 and is not
  clamped from below. It then slices `[offset, offset+limit)` and builds the
  `count`, `limit`, `offset`, `next_offset` and `prev_offset` metadata.
  These are pure functions. Python's `int()` on the query text is abstracted
  in the module `IntText` to a grammar: an optional sign and ASCII digits. It comes with the
  printing function a client uses to send an offset back.
- **New-photo order** (`Photo.save` in `backend/portfolio/models.py`), in
  module `Photos`. The class `PhotoTable` holds the rows and the next id the
  database will hand out. `Save` gives an instance with no key the order
  `max(order) + 1` over the whole table, or 1 when the table is empty, and
  then inserts or updates the row.
- **Prune** (`prune_missing_photos.Command.handle`), in module `Prune`. A
  loop collects the ids of photos whose image name is empty or not in
  storage and reports how many there are. Unless this is a dry run or none
  are missing, exactly those rows are deleted.

Two behaviours of the code worth noting, and one gap between its files:

- The new order is one above the maximum over the whole table, across all folders.
- A negative `offset` is passed through unchanged. It reaches the queryset slice, and Django
  refuses a negative slice bound with `ValueError`. That is `Failure(NegativeIndexing)` here.
- `models.py` declares `Meta.ordering = ['-order']` and no `folder` field.
  Migration `0007_auto_20251001_2246.py` adds the folder and the `-id`
  tie-break. The folder record is taken from that migration. The listing
  sorts by `order_by("-order", "-id")` itself, so it does not depend on `Meta.ordering`.

## Model

| member | source | states |
|---|---|---|
| `Photos.MaxOrder` | backend/portfolio/models.py:18 | `Max('order')` is `None` exactly on an empty table; otherwise it bounds every row's order and is some row's order |
| `Photos.NextOrder` | backend/portfolio/models.py:18-19 | the order a new photo gets: 1 on an empty table, otherwise one above an existing order and strictly above the order of every row in every folder |
| `Photos.Upsert` | backend/portfolio/models.py:20 | saving an instance that has a key overwrites the row with that key or, when there is none, appends it; every other row is unchanged and keys stay unique |
| `Photos.DeleteIds` | backend/portfolio/management/commands/prune_missing_photos.py:23 | the rows left after `filter(id__in=ids).delete()` are exactly the rows whose id is not in `ids`, and their ids stay unique |
| `Photos.PhotoTable.Save` | backend/portfolio/models.py:15-20 | a keyless instance (`None` or `0`) gets `NextOrder` of the table before the save, so it is above every other row's order; a keyed instance keeps its order; `None` appends one row with a fresh id, leaving all other rows as they were; a key upserts; the table invariant is kept |
| `Photos.PhotoTable.DeleteWhereIdIn` | backend/portfolio/management/commands/prune_missing_photos.py:23 | the table becomes `DeleteIds` of its rows, the count returned is the number of rows removed, and the invariant is kept |
| `IntText.ParseInt` | backend/portfolio/views.py:50-58 | the model's abstraction of `int(text)`: it succeeds exactly on an optional sign followed by one or more ASCII digits, with the sign applied to the decimal value, and gives `None` (the `ValueError` case) on all other text |
| `IntText.ParseShowInt` | backend/portfolio/views.py:56 | parsing the decimal text of any integer gives that integer back |
| `Listing.Rank` | backend/portfolio/views.py:40 | `order_by("-order", "-id")`: the result is sorted by order descending, then id descending; orders never increase, as `Meta.ordering` asks; it is a permutation of the input |
| `Listing.FilterFolder` | backend/portfolio/views.py:45 | `filter(folder__slug=slug)` keeps each row of a folder with that slug as often as it occurs, drops every other row, and keeps sortedness |
| `Listing.Queryset` | backend/portfolio/views.py:31-47 | `get_queryset` is sorted by `(-order, -id)`; it is a permutation of the table restricted to the slug's folder when `folder` is non-empty, and of the whole table when it is absent or empty; a photo appears exactly when it is in the table and, under a filter, in that folder |
| `Listing.UnknownSlugIsEmpty` | backend/portfolio/views.py:43-45 | a slug that no photo's folder has gives an empty list, not an error |
| `Listing.RankedPermutationUnique` | backend/portfolio/views.py:40 | two sequences sorted by `(-order, -id)` holding the same rows are equal when no two distinct rows share an id |
| `Listing.QuerysetDeterministic` | backend/portfolio/views.py:40 | with unique ids, the `-id` tie-break fixes the listing: any sorted sequence of the same rows is the queryset |
| `Listing.ParseLimit` | backend/portfolio/views.py:50-53 | `limit` is at most 200; absent or non-numeric text gives 50; a number at most 200, including a negative one, is passed through; a larger one becomes 200 |
| `Listing.ParseOffset` | backend/portfolio/views.py:55-58 | `offset` is 0 when absent or non-numeric, otherwise the number itself, unclamped |
| `Listing.Window` | backend/portfolio/views.py:61 | `qs[start:stop]` takes the rows from `start` up to `min(stop, len)`, and is empty when `stop <= start` or `start >= len` |
| `Listing.PageAt` | backend/portfolio/views.py:60-71 | fails exactly when `offset` or `offset+limit` is negative; otherwise `count` is the total, `limit` and `offset` are echoed, the items are `qs[offset..min(offset+limit,total)]`, at most `limit` of them; `next_offset` is `offset+limit` exactly when that is below the total, and then starts where the page ends; `prev_offset` is `max(offset-limit,0)` exactly when `offset > 0` |
| `Listing.Paginate` | backend/portfolio/views.py:49-71 | after parsing, the page never has more than 200 items, `count` is the queryset size, and with no parameters the page is the first 50 rows |
| `Listing.List` | backend/portfolio/views.py:73-77 | the returned items keep the listing order, are rows of the table in the requested folder, number at most 200, and `count` is the size of the filtered queryset |
| `Listing.WalkIsPages` | backend/portfolio/views.py:61-62 | the pages collected by following `next_offset` with a fixed positive limit are exactly the listing cut every `limit` rows from the starting offset |
| `Listing.WalkCovers` | backend/portfolio/views.py:61-62 | following `next_offset` from an offset with a fixed positive limit returns pages whose concatenation is the rest of the listing |
| `Listing.WalkFullPages` | backend/portfolio/views.py:61-62 | on that walk every page but the last holds exactly `limit` rows, and the last at most `limit` |
| `Listing.WalkFromStart` | backend/portfolio/views.py:61-62 | from offset 0 the pages concatenate to the whole ordered list, every page but the last holding exactly `limit` rows |
| `Listing.ShownParamsGivePage` | backend/portfolio/views.py:50-58 | a client that writes a limit of at most 200 and an offset back as decimal text gets exactly the page at those numbers |
| `Listing.ZeroLimitDoesNotAdvance` | backend/portfolio/views.py:62 | with `limit=0` and rows left, the page is empty and `next_offset` equals the current offset |
| `Prune.MissingIdsExact` | backend/portfolio/management/commands/prune_missing_photos.py:13-16 | an id is collected exactly when some photo with that id has an empty image name or one absent from storage |
| `Prune.MissingIdsDistinct` | backend/portfolio/management/commands/prune_missing_photos.py:16-18 | with unique ids, `missing_ids` has no duplicates, so its length counts the photos with missing files |
| `Prune.KeptAndMissingPartition` | backend/portfolio/management/commands/prune_missing_photos.py:13-23 | each row is either kept (file present) or reported (file missing): the two sizes add up to the table size, and the kept rows are exactly the rows with present files |
| `Prune.DeleteMissingIsKept` | backend/portfolio/management/commands/prune_missing_photos.py:23 | with unique ids, deleting the collected ids leaves exactly the rows whose file is present, in their order |
| `Prune.NothingMissingKeepsAll` | backend/portfolio/management/commands/prune_missing_photos.py:19 | when nothing is missing, the rows kept are all the rows |
| `Prune.CollectMissing` | backend/portfolio/management/commands/prune_missing_photos.py:12-16 | the scan loop returns exactly the collected-id list of the table |
| `Prune.Handle` | backend/portfolio/management/commands/prune_missing_photos.py:11-24 | reports the number of missing files; in a dry run, or when none are missing, the table is unchanged and nothing is deleted; otherwise the table becomes exactly the rows whose file is present and the deleted count equals the reported count; storage is only read |

## Left out

- The move operations `up_order`, `down_order`, `top_order`, `bottom_order` and per-folder renormalisation. `urls.py` routes to them, but their bodies are not in `views.py`.
- Derivative generation (`generate_derivatives`) and the backfill command. The called method is not shown, and image resizing and encoding belong to an imaging library.
- Serialisation, HTTP responses and URL building (`PhotoList.get`'s serializer and `Response`, `serializer.py`). `List` returns the items and the metadata instead.
- ORM mechanics: `select_related`, `.only`, `iterator`, and query evaluation. The table is a sequence.
- IntText.ParseInt: Python `int()` accepts leading and trailing whitespace, `_` between digits and non-ASCII decimal digits; `ParseInt` does not, and treats such text as non-numeric. Python 3.11 and later also raise `ValueError` on decimal text longer than 4300 digits (`sys.int_max_str_digits`); `ParseInt` accepts any length. So a `limit` of more than 4300 digits gives 50 in the source and 200 (or the negative number) in the model, and such an `offset` gives 0 in the source and the number itself in the model.
- Photo fields not used by the core: `title`, `description`, `category`, `created_at`, `thumb`, `preview`, `blur_data_url`.
- The database's id sequence is abstracted as `nextId`, a counter kept above every id in the table. A row inserted with an explicit key raises the counter. A real sequence does not do this, and a later insert could then collide.
- `save(*args, **kwargs)` options such as `update_fields` or `force_insert`, and the lack of atomicity between reading the maximum and inserting. Concurrent saves are not modelled.
- The console messages of the prune command. `Handle` returns the reported count and the deleted count instead.
- The prune scan visits rows in table order. The source iterates in `Meta.ordering` order. Only the order of `missing_ids` differs; the set of deleted rows does not.
- Storage failures, and the storage backend itself. `default_storage.exists` is membership in a set of names.
- Settings, migrations (beyond the folder record they define), admin registration, routing and the frontend pages.
