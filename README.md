# TemplateConfig: a verified model of the template image cache

MaaFramework's resource layer keeps a lazy, two-level cache of template images
(`TemplateConfig`). It works with three maps:

- `template_paths_` maps a logical template name to its candidate root
  directories, in registration order, and to its relative filenames;
- `template_cache_` maps a name to its assembled list of images;
- `template_bank_` maps a resolved file path to the one image decoded from it.

`lazy_load` registers a root and the filenames for a name, and drops that name's
cached list. `get_template_images` returns the cached list, or builds it with
`load_images`. For every filename, `load_images` probes the roots from the last
registered to the first and keeps the first non-empty image it finds.
`load_single_image` answers from the bank. Otherwise it decodes an existing file
and banks the result. `clear` empties all three maps. In a debug build the cache
is strict:

- registration validates the name at once;
- a filename that no root resolves makes the whole load fail.

In a release build the cache is lenient: registration always succeeds, and such
filenames are just skipped.

The project has three modules:

- `Env` (env.dfy) holds the outside world as the cache sees it. An `Image`
  matters only through its emptiness. A `Disk` has an existence test and a
  decoder. `Join` combines a root and a filename.
- `TemplateModel` (template_model.dfy) describes the cache as values:
  - `Resolve`, `Store` and `Fill` say what a bank lookup returns and how it
    grows the bank;
  - `ProbeBelow`/`ProbeRoots` give the root-by-root probe of one filename,
    and `ProbeFrom` gives the same probe in the shape of the loop that runs it;
  - `Gather` builds a name's list;
  - `LoadOutcome`, `LookupOutcome` and `RegisterOutcome` give the effect of
    each public operation on the three `Tables`.

  The lemmas about these functions state the properties the cache promises.
- `Resource` (resource.dfy) holds `class TemplateConfig`:
  - its fields are the three maps, plus a constant `strict` fixed at
    construction that stands for the debug build;
  - every method updates the maps in place;
  - each method is proved to produce the outcome its `TemplateModel` function
    describes, and to keep the invariant `Valid()`.

  The nested loop of `load_images` (a `while` over the filenames, and an inner
  `while` over the roots in reverse with an early `break`) is implemented in
  place with loop invariants. The inner loop is the helper method
  `ProbeFilename`. A ghost log `decoded` records each path decoded since
  construction or the last `clear`. `Valid()` states that no path is decoded
  twice and that the bank holds exactly the logged paths.

## Model

| member | source | states |
|---|---|---|
| `Resource.TemplateConfig.LazyLoad` | source/MaaFramework/Resource/TemplateConfig.cpp:8-28 | Registration has exactly the effect `RegisterOutcome` describes and keeps the invariant. In lenient mode nothing is decoded. |
| `Resource.TemplateConfig.Clear` | source/MaaFramework/Resource/TemplateConfig.cpp:30-37 | All three maps become empty, the decode log restarts, and the invariant holds. |
| `Resource.TemplateConfig.GetTemplateImages` | source/MaaFramework/Resource/TemplateConfig.cpp:39-46 | The reply and the new tables are exactly `LookupOutcome`: the cached list on a hit, a load otherwise. |
| `Resource.TemplateConfig.LoadImages` | source/MaaFramework/Resource/TemplateConfig.cpp:48-90 | The nested loop returns exactly `LoadOutcome`'s list and leaves exactly its tables. The invariant holds, and the registrations never change. |
| `Resource.TemplateConfig.ProbeFilename` | source/MaaFramework/Resource/TemplateConfig.cpp:61-69 | The reverse loop over the roots with early exit yields exactly `ProbeRoots`' hit and looked-up paths. The bank grows by exactly those lookups. |
| `Resource.TemplateConfig.LoadSingleImage` | source/MaaFramework/Resource/TemplateConfig.cpp:92-107 | It returns what `Resolve` gives for the path in the old bank, and the new bank is `Store` of the old one. On a bank hit it returns the stored image and changes nothing. If the file exists but is not banked, it decodes the file, banks the result (even an empty one) and logs the decode. If the file is missing, it returns the empty image and changes nothing. |
| `TemplateModel.FillShape` | source/MaaFramework/Resource/TemplateConfig.cpp:94-103 | After any run of lookups, first decode wins: banked entries are never replaced. The added keys are exactly the existing paths looked up, each holding its decoded image. |
| `TemplateModel.FillResolves` | source/MaaFramework/Resource/TemplateConfig.cpp:94-106 | Banking never changes what a path resolves to, so a probe sees the same images whatever it has banked before. |
| `TemplateModel.FillBanks` | source/MaaFramework/Resource/TemplateConfig.cpp:98-102 | A looked-up path whose image is non-empty ends up in the bank with that image. |
| `TemplateModel.ProbeBelow` | source/MaaFramework/Resource/TemplateConfig.cpp:63-69 | A probe's hit is never the empty image. It is what the last path looked up resolves to. |
| `TemplateModel.ProbeFromBelow` | source/MaaFramework/Resource/TemplateConfig.cpp:63-69 | The probe written in the shape of the loop (continued from position j with the paths done so far) finds what the recursive probe finds. Its trace is the paths done followed by the recursive probe's trace. |
| `TemplateModel.ProbeMisses` | source/MaaFramework/Resource/TemplateConfig.cpp:63-69 | A probe finds nothing if and only if no root yields a non-empty image. It then has looked up every root, last registered first. |
| `TemplateModel.ProbeFinds` | source/MaaFramework/Resource/TemplateConfig.cpp:63-69 | A found image comes from the highest root position that yields a non-empty one. All later roots yield empty images, and exactly the roots from the last down to that position were looked up. |
| `TemplateModel.ProbeOverride` | source/MaaFramework/Resource/TemplateConfig.cpp:61-69 | Override precedence over all registered roots: the last-registered root that resolves wins, and earlier-registered roots are not probed. With no such root, every root is probed and nothing is found. |
| `TemplateModel.Gather` | source/MaaFramework/Resource/TemplateConfig.cpp:61-81 | An assembled list holds only non-empty images and is no longer than the filenames. Only a strict load can abort. |
| `TemplateModel.GatherFromTrace` | source/MaaFramework/Resource/TemplateConfig.cpp:61-81 | Every assembled image is what one of the looked-up paths resolves to. |
| `TemplateModel.AbortSticks` | source/MaaFramework/Resource/TemplateConfig.cpp:70-77 | Once a strict load gives up on a filename, the remaining filenames change nothing. |
| `TemplateModel.Somes` | source/MaaFramework/Resource/TemplateConfig.cpp:70-81 | Keeping the found entries never lengthens a sequence. The length is kept if and only if every entry was found. |
| `TemplateModel.LenientKeepsHits` | source/MaaFramework/Resource/TemplateConfig.cpp:70-81 | In lenient mode the list is the found image of every resolving filename, in filename order. Only filenames that resolve to nothing are skipped. |
| `TemplateModel.StrictAligned` | source/MaaFramework/Resource/TemplateConfig.cpp:70-81 | A strict load gives up if and only if some filename resolves to nothing. Otherwise the list is exactly as long as the filenames and aligned with them position by position. |
| `TemplateModel.CoherentLoad` | source/MaaFramework/Resource/TemplateConfig.cpp:48-90 | A load keeps the cache invariant: cached names are registered, and cached lists are non-empty, made of non-empty images that the bank holds. A cached list has at most one image per current filename, and exactly one in strict mode. |
| `TemplateModel.CoherentAlways` | source/MaaFramework/Resource/TemplateConfig.cpp:8-46 | A fresh cache satisfies the invariant, and lookup and registration both keep it. Erasing the entry whenever the filenames change is what keeps cached lists matched to the current filenames. |
| `TemplateModel.LoadCachesOnSuccess` | source/MaaFramework/Resource/TemplateConfig.cpp:83-89 | A load never changes registrations, and writes the cache only when it returns images. The name then holds exactly the returned list, and no other entry changes. An empty result leaves the cache as it was. |
| `TemplateModel.LookupMissAssembles` | source/MaaFramework/Resource/TemplateConfig.cpp:45 | On a cache miss, a lookup returns exactly the assembled list, and banks exactly the looked-up paths. |
| `TemplateModel.LookupNonEmpty` | source/MaaFramework/Resource/TemplateConfig.cpp:39-90 | Every image a lookup returns is non-empty. |
| `TemplateModel.LookupAligned` | source/MaaFramework/Resource/TemplateConfig.cpp:41-45 | Every non-empty list a lookup returns, from a cache hit or a fresh load, has at most one image per filename the name is registered with. In strict mode it has exactly one per filename. |
| `TemplateModel.LookupTwice` | source/MaaFramework/Resource/TemplateConfig.cpp:41-43 | For any tables: once a lookup has yielded images, a repeated lookup returns the same list and leaves all three maps unchanged, even if the filesystem has changed. |
| `TemplateModel.UnknownName` | source/MaaFramework/Resource/TemplateConfig.cpp:52-57 | An unregistered name yields an empty list and adds nothing to the cache or the bank. |
| `TemplateModel.ClearedLookup` | source/MaaFramework/Resource/TemplateConfig.cpp:34-36 | After clearing, every lookup behaves as on a new cache: it finds nothing and creates nothing. |
| `TemplateModel.RegisterRecords` | source/MaaFramework/Resource/TemplateConfig.cpp:13-17 | Registration appends the root to the name's roots, creating the entry if needed, and replaces its filenames. Every other name's registration is unchanged. In lenient mode it succeeds, only drops the name's cached list, and does not touch the bank. |
| `TemplateModel.StrictRegisterProbes` | source/MaaFramework/Resource/TemplateConfig.cpp:19-25 | Strict registration fails if and only if the probed list is empty. On success the list is cached, and on failure the name's cache entry stays dropped. The bank grows by exactly the probe's lookups. |
| `TemplateModel.ReregisterInvalidates` | source/MaaFramework/Resource/TemplateConfig.cpp:13-17 | After a lenient re-registration, the next lookup rebuilds the list. For every filename, the first path probed is the filename under the new root. |
| `TemplateModel.StrictLenientDiverge` | source/MaaFramework/Resource/TemplateConfig.cpp:70-77 | With one resolving filename followed by one that does not resolve, strict mode yields nothing and lenient mode yields the first image alone. |

## Left out

- Logging (`LogDebug`, `LogError`, `LogFunc`) only observes and is not modelled.
- The filesystem existence test and the image decoder are foreign calls. Each
  operation receives them as the `Disk` parameter, so one filesystem stands
  for one call, and it may differ between calls.
- The existence test at line 98 can throw `filesystem_error`. The model's
  `Disk.present` is total, so it does not capture the state such an exception
  leaves: a `lazy_load` or `load_images` interrupted with the name's cache
  entry already erased and the bank only partly filled.
- Image contents and formats: an image is a byte sequence, and only its
  emptiness is used.
- Path encoding and the `/` operator on paths (line 64): `Join` is a fixed
  concatenation, and no property depends on how it combines its arguments.
- The shared `static` empty vector returned on failure (lines 55, 73, 85) and
  the lifetime of returned references: the model returns an owned empty
  sequence.
- The `mutable` member maps updated from `const` methods, and thread safety:
  there is no concurrency, and the methods simply state what they modify.
- The `#ifdef MAA_DEBUG` compile-time switch is replaced by the constant
  `strict`, set at construction, so both builds are verified.
- The cache insertion at line 89 does not overwrite an existing entry. The
  model keeps this: `LoadOutcome` returns the entry already present. That case
  cannot arise through `get_template_images`.
- The declaration of the three maps lives in TemplateConfig.h, which is not part of
  this model. `Resource.TemplateConfig.constructor` starts them empty, with the
  given mode and the invariant established.
- The outer loop's `continue` (line 76) is written as an `if`/`else` around the
  append. The inner loop's `break` (line 67) is kept.
