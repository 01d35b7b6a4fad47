# Photo gallery server: caches, image serving and listing

This project models the core of a small photo-gallery web server (`main.py`).
The server lists the files under a folder whose names match a regular
expression and serves each file as a full image or as a JPEG preview.
The model covers three parts:

- **The two byte-bounded LRU caches** (`LruCache`). One holds full images, the
  other previews. Each is an insertion-ordered dictionary from a normalised
  path to (media type, payload, loop time). Its order is the recency order.
  A hit moves the entry to the most-recent end. A miss appends the new entry
  and then evicts from the least-recent end until the payload total fits half
  of the 1024 MiB ceiling, or the cache is empty. The dictionary is
  `class Cache`. Its `entries` sequence is reassigned by methods that mirror
  the dictionary operations the source uses: `in`, `pop`, item assignment and
  `popitem(last=False)`. `EvictOldItems` has the eviction `while` loop.
- **Full-image and preview serving** (`Images`). `class Gallery` owns both
  caches. Its invariant says four things: both caches have unique keys, both
  stay within budget, the two caches are distinct objects, and every cached
  preview is a JPEG. `GetFullImage` and `GetPreviewImage` follow the source's
  branches: cache hit, missing file, media-type defaulting, a decode or encode
  failure that falls back to the full image (reported as `image/jpeg`, with
  nothing stored in the preview cache), and store-then-evict.
- **Listing** (`Listing`, with `Sorting` and `Paths`). `FilterPaged` is the
  paginated listing: it collects the walked files whose name matches, sorts
  them, and takes a Python slice `[offset:offset+limit]`. `View` is the
  viewer lookup: it validates the file name, collects the matching files in
  walk order, and selects the last one whose name equals the requested name
  ignoring case.

The filesystem, the `mimetypes` guess and the imaging library are inputs.
`Images.Env` gives four maps: regular files and their bytes, guessed types,
the files the imaging library opens (with their size and colour mode), and
the JPEG bytes produced for a file under a given processing plan and box. A
path missing from `files` is not a regular file (`os.path.isfile` is false,
and the source then raises `FileNotFoundError` itself). A path missing from
`guessed` is one `guess_type` returns no type for. A path missing from
`decoded` or `encoded` is one where opening or encoding raised. The directory walk is a
sequence of `(root, filenames)` records. A regular expression is abstract:
`RegexEngine.compiles` says whether a pattern compiles, and
`RegexEngine.search` says whether it matches a name. The loop clock is a
`real` parameter `now`. It is stored in entries and never read.

Behaviour worth noting:
- Names are matched, not full paths.
- Every listing call walks the tree again. There is no scan cache with a
  time-to-live.
- The preview fallback always reports `image/jpeg`, even when the full-image
  type is something else. Every file the imaging library cannot open, vector
  formats included, is served as its raw bytes labelled `image/jpeg`; there is
  no separate pass-through and no "unsupported format" error.
- The viewer's file list is in walk order, not sorted.
- A listing call with `limit <= 0` before the end of the list returns
  `has_more = true` and a next offset that does not advance
  (`NonPositiveLimitStalls`). A negative stop index counts from the end, as
  Python slicing does.

## Model

| member | source | states |
|---|---|---|
| LruCache.Size | main.py:75-76 | `get_cache_size`: the total is at least the payload length of every entry |
| LruCache.Removed | main.py:87 | `pop` at a position: one entry shorter, entries before it unchanged, entries after it shifted down by one |
| LruCache.Promoted | main.py:87-88 | Pop then reinsert: same length, and the hit entry is now the most recent |
| LruCache.Assigned | main.py:103 | Item assignment: the same length for a present key, one longer for a new key, the new value sits at the key's old position or at the most recent end, and every other old entry keeps its position and value |
| LruCache.Evicted | main.py:78-80 | Eviction never lengthens the cache and leaves a cache already within budget untouched |
| LruCache.EvictedMembers | main.py:78-80 | Every entry that survives eviction was in the cache before |
| LruCache.SizeAppend | main.py:75-76 | The cache size (sum of payload lengths) of a concatenation is the sum of the sizes |
| LruCache.SizeCountsPayloadOnly | main.py:75-76 | Two caches whose payload lengths agree entry by entry have the same size: media type, key and time do not count |
| LruCache.Find | main.py:86 | `key in cache`: -1 exactly when no entry has the key, otherwise a position holding that key |
| LruCache.Cache.Contains | main.py:86 | True iff some entry has the key |
| LruCache.Cache.Pop | main.py:87 | Returns the entry with the key and leaves the other entries in their order |
| LruCache.Cache.SetItem | main.py:88 | Dictionary assignment: an existing key keeps its position, a new key goes to the most recent end; keys stay unique |
| LruCache.Cache.PopOldest | main.py:80 | Removes and returns the least recently used entry |
| LruCache.Cache.Refresh | main.py:86-88 | A hit returns the stored entry, moves it to the most recent end and keeps the entry set and the size |
| LruCache.Cache.constructor | main.py:30-31 | A cache starts empty |
| LruCache.EvictOldItems | main.py:78-80 | The eviction loop leaves `Evicted(old entries, max)`, which is empty or within `max` |
| LruCache.EvictedIsSuffix | main.py:78-80 | Eviction keeps a suffix of the recency order: values and relative order of survivors are unchanged |
| LruCache.EvictedFits | main.py:78-80 | After eviction the cache is empty or its size is at most the budget |
| LruCache.EvictedIsMinimal | main.py:79 | Every entry evicted was needed: each longer suffix was over the budget |
| LruCache.EvictedKeepsUniqueKeys | main.py:78-80 | Eviction keeps keys unique |
| LruCache.EvictedAfterAppend | main.py:103-104 | An appended entry is evicted iff its own payload exceeds the budget (then everything is evicted); otherwise it is the most recent survivor |
| LruCache.HitProtectsFromEviction | main.py:86-104 | With three distinct keys: after storing A and B, a hit on A and storing C with room for one eviction evicts B and keeps A and C |
| LruCache.RemovedLacksKey | main.py:87 | After `pop`, the key is gone and the remaining keys are unique |
| LruCache.PromotedSize | main.py:87-88 | Moving an entry to the most recent end keeps the cache size |
| LruCache.PromotedPermutes | main.py:87-88 | A hit keeps the same multiset of entries: no value is lost or changed |
| LruCache.PromotedKeepsUniqueKeys | main.py:87-88 | A hit keeps keys unique |
| LruCache.PromotedFacts | main.py:86-88 | A promoted cache has the same entries and size, the hit entry last and the others in their old relative order |
| LruCache.AssignedFacts | main.py:103 | Assigning a key the cache lacks appends it; keys stay unique |
| LruCache.StoreAndEvict | main.py:103-104 | A miss stores the entry and evicts; the result is within budget or empty, and holds only old entries or the new one |
| Images.MediaType | main.py:96-98 | The full-image media type is the guess when it starts with `image/`, otherwise exactly `application/octet-stream` |
| Images.Render | main.py:118-133 | The preview encoding succeeds exactly when the file opens and the encoder produces bytes for its plan and box |
| Images.PlanPreview | main.py:120-128 | Downscale iff width > box width or height > box height; RGBA and palette images are flattened on white, other non-RGB modes converted |
| Images.Gallery.constructor | main.py:29-31 | Both caches start empty and the gallery invariant holds |
| Images.Gallery.GetFullImage | main.py:85-105 | Hit: the stored type and bytes, entry promoted. Missing file: NotFound, cache unchanged. Miss: defaulted type and the file's bytes, entry appended then evicted; the invariant (size within budget) is kept |
| Images.Gallery.GetPreviewImage | main.py:107-139 | Always `image/jpeg`. Hit: stored bytes, promoted. Missing file: NotFound. Rendered: stored then evicted. Failure: the full-image bytes, nothing stored in the preview cache, and the full-image cache updated as `GetFullImage` does (promoted on a hit, stored then evicted on a miss) |
| Sorting.Le | main.py:176 | String comparison: a prefix sorts before or equal to any extension of it |
| Sorting.LeReflexive | main.py:176 | String order is reflexive |
| Sorting.LeTotal | main.py:176 | String order is total |
| Sorting.LeAntisymmetric | main.py:176 | String order is antisymmetric |
| Sorting.LeTransitive | main.py:176 | String order is transitive |
| Sorting.Insert | main.py:176 | Inserting into a sorted list keeps it sorted and adds exactly that element |
| Sorting.Sort | main.py:176 | `files.sort()`: the result is sorted and a permutation of the input |
| Sorting.SortedHeadsAgree | main.py:176 | Two sorted permutations of one multiset begin with the same string |
| Sorting.SortedIsUnique | main.py:176 | A multiset of strings has one sorted arrangement, so `Sort` equals Python's sort |
| Paths.Join | main.py:173 | `os.path.join(root, name)`: at least as long as `name` and at most one separator longer than both parts |
| Paths.JoinShape | main.py:173 | The joined path ends with `name` and starts with `root` unless `name` is absolute |
| Paths.BaseName | main.py:240 | The text after the last separator: no separator in it, and a suffix of the path; this is `Path(p).name` for every joined walk path (a root joined with a non-empty name that has no separator) |
| Paths.SameIgnoringCase | main.py:240 | `a.lower() == b.lower()`: only strings of equal length match |
| Paths.SameIgnoringCaseLetterwise | main.py:240 | Two strings match iff they have the same length and agree at every position after lower-casing ASCII letters |
| Paths.SameIgnoringCaseReflexive | main.py:240 | Every name matches itself ignoring case |
| Paths.BaseNameAfterSep | main.py:240 | The name after a separator is the text after it when that text has no separator |
| Paths.BaseNameOfJoin | main.py:238-240 | The name of `join(root, name)` is `name` for a walked name |
| Listing.Compile | main.py:164-167 | An empty pattern accepts everything; a non-empty one fails iff it does not compile |
| Listing.Accepts | main.py:172 | `pattern is None or pattern.search(name)`: with no pattern every name is accepted, otherwise exactly the names the pattern is found in; only the name is tested |
| Listing.CollectDir | main.py:171-174 | The loop over one directory's names collects exactly `DirMatches`, in walk order |
| Listing.Collect | main.py:169-174 | The walk loop of the listing collects exactly `Matches`, in walk order |
| Listing.DirMatches | main.py:171-174 | One directory contributes at most one path per file name |
| Listing.Matches | main.py:169-174 | The walk contributes at most one path per walked file name |
| Listing.DirMatchesMembers | main.py:171-174 | A directory contributes exactly the joined paths of its accepted names |
| Listing.MatchesMembers | main.py:169-174 | A path is collected iff it is a walked root joined with a name the pattern accepts (the name, not the path, is tested) |
| Listing.SliceBound | main.py:178 | A slice bound lies in [0, n] and is unchanged when already inside |
| Listing.PySlice | main.py:178 | `s[start:stop]`: the run of elements from the clamped start up to the clamped stop, empty when they cross |
| Listing.SliceWindow | main.py:178 | For non-negative offset and limit the batch is the run of `min(limit, total - offset)` files starting at `offset` (empty past the end) |
| Listing.HasMoreMeansFullPage | main.py:178-179 | `has_more` implies a full page of `limit` files; otherwise the page runs to the end of the list |
| Listing.NonPositiveLimitStalls | main.py:178-185 | With `limit <= 0` (and a non-negative stop) before the end, the batch is empty, `has_more` holds and the next offset does not advance |
| Listing.PagingCoversAll | main.py:178-186 | Following the returned `offset` while `has_more` holds yields every file from the start offset, once, in order |
| Listing.FilterPaged | main.py:153-188 | Directory-not-found and invalid-regex errors; otherwise the batch is `sorted(matches)[offset:offset+limit]`, `total` the match count, `has_more` iff `offset + limit < total`, next offset `offset + limit` |
| Listing.NameMatches | main.py:240 | `Path(full_path).name.lower() == filename.lower()`: a match has a name as long as the requested one |
| Listing.LastMatch | main.py:240-241 | A found target's name equals the requested one ignoring case |
| Listing.LastIndexWhere | main.py:236-241 | The last position satisfying the test, or -1: everything after it fails the test |
| Listing.LastMatchIsLast | main.py:240-241 | The target is a collected path whose name equals the requested one ignoring case, and no later path matches; none exactly when no path matches |
| Listing.ScanDirStep | main.py:236-241 | One walked name extends the collected list as the loop does and keeps the target the last match |
| Listing.ScanDir | main.py:236-241 | The loop over one directory's names appends its accepted joined paths and keeps the target the last match |
| Listing.Scan | main.py:233-241 | The walk loop collects exactly the matching paths in walk order, with the target the last match |
| Listing.LastMatchAppend | main.py:239-241 | Appending a path makes it the target iff its name matches; otherwise the target is unchanged |
| Listing.HasSeparator | main.py:221 | True iff the name contains a `/` or a `\` |
| Listing.Names | main.py:248 | The name list has one name per collected path |
| Listing.View | main.py:210-256 | Rejects names with `/` or `\`, a missing folder and a bad regex; otherwise returns the last matching collected file (if it is a regular file), its name, and the names of all collected files in walk order |

## Left out

- `main.go` (a self-updater over HTTP, SHA-256, JSON and process execution) is not part of this model.
- `get_local_ip_addresses`, the FastAPI routes, templates, response marshaling and the startup banner: network and I/O plumbing.
- Base64 and JSON decoding of route parameters, and the image URL built in `api_view`: library calls. `View` takes the decoded folder check, regex and file name.
- `save_image` and `list_saved_files`: file copying and directory listing outside the core.
- `normalize_path`, `os.path.isdir`, `os.path.isfile`, `os.walk` and file reading are inputs. A read error after `isfile` succeeds is not modelled.
- The imaging library's pixel work (compositing, LANCZOS resizing, JPEG quality 85) is the `encoded` input keyed by file, plan and box. `GetPreviewImage` defaults the box to 512 by 512 and `FilterPaged` defaults `offset` to 0 and `limit` to 150. The target size that `thumbnail` computes is not modelled.
- Regular-expression semantics are abstract (`RegexEngine`). Case-insensitive compilation is part of what `search` means.
- Logging with `print` and the loop clock: the timestamp is stored and never read.
- Concurrency: the source has no locks, and each request's cache updates are modelled as one atomic method.
- Paths.Join and Paths.BaseName: POSIX separators only. Windows `\` separators in `os.path` and `pathlib` are not modelled.
- Paths.BaseName: a path ending in a separator has an empty name here, while `pathlib` drops trailing separators first (`Path("a/b/").name` is `b`). `pathlib` also drops single-dot components (`Path("a/.").name` is `a`, `Path(".").name` is empty), while here the name of both is `.`. Only joined walk paths, which never end in a separator or in a `.` component, reach it.
- Paths.SameIgnoringCase: lower-cases ASCII letters only, not all of Unicode as `str.lower` does.
- Sorting.Sort: an insertion sort rather than the library's merge sort. `SortedIsUnique` shows that both produce the same list.
