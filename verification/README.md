# URL shortener core in Dafny

This project models the sequential core of a small URL-shortening service. It
has three cooperating parts.

- **Base-62 encoder** (`utils.py`). `int_to_base62(n, length)` turns a
  non-negative counter into a string over `a-z`, `A-Z`, `0-9`. The string is
  left-padded with the zero symbol `'a'` to `length` symbols and is never
  truncated. The module `Base62` models it twice:
  - as a recursive function, `Encode`;
  - as the source's loops, `IntToBase62`.

  A model decoder, `Decode`, reads a string back as base-62 digits. It gives
  the round-trip and injectivity properties.
- **Code pool** (`codeGenerator.py`), module `CodePool`.
  - `generate_codes_if_needed` rebuilds the module-level `codes` list:
    1. it encodes `1..current_max`;
    2. it removes every code already bound to a link;
    3. it adds one more batch when fewer than `LOW_WATERMARK` codes remain;
    4. it writes the counter back.
  - `get_code_for_new_url` regenerates when the pool is low. It then removes
    and returns the code at a random index. The random draw is a parameter.
- **Two-tier store** (`database.py`), module `Store`.
  - A local SQLite tier and a remote Postgres tier each hold a `url` table
    (code to link) and a `settings` table (key to integer).
  - Every public write is applied locally at once and queues one replication
    task. That task repeats the same statement remotely. The queue is run in
    creation order.
  - `full_sync` overwrites the local tier with the remote one.
  - Module `ByteOrder` models the byte-wise collation behind
    `ORDER BY code`.

The module `App` composes these parts into the request paths of `app.py`:
startup, `/shorten`, `/{code}` and shutdown.

The state is immutable data:
- a `Store.Db` (both tiers and the queue);
- a `CodePool.State` (the pool and the `Db`).

Every operation is a pure function from state to state. An operation that can
raise returns a `Result`.

The code has no cooldown between generations, no startup high watermark and
no pool-exhausted error, and the model adds none. Picking from an empty pool is the `EmptyRange`
error (`random.randint(0, -1)`). A used code that is missing from the
regenerated list is the `NotInList` error (`list.remove`).

## Model

| member | source | states |
|---|---|---|
| Base62.AlphabetSpelledOut | utils.py:3 | The alphabet is the 26 lower-case letters, then the 26 upper-case letters, then the 10 digits: 62 symbols. |
| Base62.DigitValue | utils.py:3 | The digit value of a character is its index in the alphabet. It is -1 exactly for characters outside the alphabet. |
| Base62.DigitValueOfSymbol | utils.py:13 | Appending `BASE62[r]` contributes the digit `r`. |
| Base62.NumeralInAlphabet | utils.py:11-13 | The digits pushed by the `divmod` loop are all alphabet symbols. |
| Base62.DecodeNumeral | utils.py:11-13 | The digits the `divmod` loop produces read back as `n`. |
| Base62.NumeralLength | utils.py:11-13 | The loop produces at most `k` digits exactly when `n < 62^k`. |
| Base62.DecodeZeros | utils.py:8-9 | A run of zero symbols of any length reads back as 0. |
| Base62.DecodeLeadingZeros | utils.py:15-16 | Padding with zero symbols on the most significant side does not change the value read back. |
| Base62.ZeroIsPadding | utils.py:8-16 | The special case `n == 0` returns exactly what the general padding path would return for an empty digit list. |
| Base62.EncodeInAlphabet | utils.py:13-16 | Every character of the result belongs to `BASE62`. |
| Base62.EncodeLength | utils.py:11-17 | The result has at least `length` symbols. It has exactly `length` symbols iff `n < 62^length`, and more otherwise: no truncation. |
| Base62.EncodeRoundTrip | utils.py:11-17 | Reading the result as base-62 digits, most significant first, gives back `n`. |
| Base62.EncodeInjective | utils.py:5-17 | For a fixed length, two counters have the same encoding iff they are equal. |
| Base62.EncodeNonEmpty | utils.py:8-17 | A positive counter, or a positive length, gives a non-empty string. |
| Base62.IntToBase62 | utils.py:5-17 | The loop version returns the recursive encoding. Its result is in the alphabet and decodes to `n`. |
| Base62.PushDigits | utils.py:10-13 | The `divmod` loop pushes the base-62 digits of `n`, least significant first. |
| Base62.PadWithZeros | utils.py:15-16 | The padding loop adds zero symbols only up to `length`, so that the reversed list is the padded numeral. |
| ByteOrder.NotAfterAntisymmetric | database.py:139 | Two strings that each sort no later than the other are equal. |
| ByteOrder.NotAfterTransitive | database.py:139 | The collation order is transitive. |
| ByteOrder.NotAfterTotal | database.py:139 | Any two strings are comparable. |
| ByteOrder.NotAfterReflexive | database.py:139 | Every string sorts no later than itself. |
| ByteOrder.LeastExists | database.py:139 | A non-empty set of codes has a least element. |
| ByteOrder.LeastUnique | database.py:139 | The least element is unique. |
| ByteOrder.Sorted | database.py:139-142 | The ordered listing holds exactly the stored codes, each once. |
| ByteOrder.SortedAscending | database.py:139-142 | The ordered listing is strictly ascending in collation order. |
| Store.GetLink | database.py:127-134 | An unknown code gives None. A stored code gives its stored link. |
| Store.GetSetting | database.py:155-162 | An unknown key gives 0. A stored key gives its stored value. |
| Store.GetUrlMappings | database.py:144-153 | The dictionary maps each code to the link `get_link` returns for it, and holds no other code. |
| Store.GetUrlCodes | database.py:136-142 | The result is None iff the url table is empty. Otherwise it lists every stored code exactly once, and nothing else. |
| Store.UrlCodesAscending | database.py:136-142 | The listed codes are strictly ascending. |
| Store.InsertUrlRow | database.py:70-77 | Insert with `ON CONFLICT DO NOTHING`: a present code leaves the tables unchanged, an absent one gets the link, other codes and the settings are untouched. |
| Store.DeleteUrlRow | database.py:79-85 | The code is absent afterwards. Other codes and the settings are unchanged. Deleting an absent code is a no-op. |
| Store.UpsertSetting | database.py:87-96 | The key reads back as the new value. Other keys and the url table are unchanged. |
| Store.InsertUrl | database.py:100-107 | The local link of the code is the old one if present, else the new one. Nothing else changes locally, the remote tier is untouched, and exactly one insert task is queued. |
| Store.DeleteUrl | database.py:109-116 | The code is locally absent and every other code keeps its link. The remote tier is untouched and exactly one delete task is queued. |
| Store.SetSetting | database.py:118-125 | The key locally reads back as the value. Other keys and the url table are unchanged, the remote tier is untouched, and exactly one upsert task is queued. |
| Store.RunNextTask | database.py:60-66 | Running the oldest task shortens the queue by one. It leaves the local tier alone and does not change what the whole queue would produce remotely. |
| Store.Drain | database.py:60-66 | Running every queued task empties the queue. The remote tier becomes the replay of the queue, in order, on the old remote tier. |
| Store.FullSync | database.py:164-188 | Afterwards the local links and settings equal the remote ones, key for key. The remote tier and the queue are unchanged. |
| Store.WriteQueuesItsTask | database.py:100-125 | Each public write changes the local tier exactly as its queued task would, and queues exactly that one task. |
| Store.WritePreservesReplicated | database.py:100-125 | If replaying the queue on the remote tier gives the local tier before a write, it still does after the write. |
| Store.PerformAllReplicated | database.py:100-125 | A sequence of writes keeps replication and queues exactly those writes, in issue order. |
| Store.ReplicationConverges | database.py:100-125 | From equal tiers and an empty queue, after any writes and an in-order run of the queue, the remote tier equals the local one. |
| Store.FullSyncReplicates | database.py:164-188 | With an empty queue, a full sync leaves the two tiers equal. |
| Store.FullSyncIdempotent | database.py:164-188 | Running a full sync twice is the same as running it once. |
| Store.FullSyncDiscardsLocalWrites | database.py:172-185 | A full sync overwrites rather than merges: a local write made before it leaves no trace locally. |
| Store.FirstWriterWins | database.py:100-107 | Of two inserts of one code, the first link is kept locally, and remotely once the queue has run. |
| CodePool.EncodingsMember | codeGenerator.py:21 | Every code in the generated list encodes a counter of the range. |
| CodePool.EncodingOutside | codeGenerator.py:21 | The encoding of a counter outside the range is not in the list. |
| CodePool.EncodingsApart | codeGenerator.py:29-33 | The extension batch shares no code with the first range. |
| CodePool.EncodingsNoDup | codeGenerator.py:21 | The list of encodings has no duplicates, because the encoder is injective. |
| CodePool.EncodingsNonEmpty | codeGenerator.py:21 | No listed code is the empty string. |
| CodePool.EncodingsSplit | codeGenerator.py:29-33 | Encoding `1..mid` and then `mid..hi` gives the same list as encoding `1..hi`. |
| CodePool.EncodingsGrow | codeGenerator.py:29-35 | Raising the end of the range keeps every code listed. |
| CodePool.WithoutMember | codeGenerator.py:25-27 | A code stays after filtering iff it was listed and is not used. |
| CodePool.WithoutTwice | codeGenerator.py:25-27 | Filtering by one set and then by another is filtering by their union. |
| CodePool.WithoutNoDup | codeGenerator.py:25-27 | Filtering keeps a list free of duplicates. |
| CodePool.RemoveFirst | codeGenerator.py:27 | `list.remove` shortens the list by exactly one. |
| CodePool.RemoveFirstAt | codeGenerator.py:50 | `list.remove` drops exactly the element at the first index holding the value, and keeps the rest in order. |
| CodePool.RemoveFirstIsWithout | codeGenerator.py:27 | In a list without duplicates, removing a present code filters out exactly that code. |
| CodePool.RemoveEachFilters | codeGenerator.py:25-27 | The removal loop raises iff some used code is not in the list, and names such a code. Otherwise the list left over is the original list minus the used codes, in order. |
| CodePool.AscendingNoDup | database.py:139-142 | Strictly ascending codes contain no duplicates. |
| CodePool.UsedCodesListed | codeGenerator.py:23-25 | `get_url_codes` is None exactly when no code is used. Otherwise it lists the used codes once each. |
| CodePool.FilterUsedSpec | codeGenerator.py:23-27 | Filtering a duplicate-free list by the used codes raises iff some used code is not listed. Otherwise the result is the list minus the used codes. |
| CodePool.EmptyListMisses | codeGenerator.py:21-27 | When the list built at line 21 is empty and some code is used, the removal loop raises. |
| CodePool.SuccessNeedsCounter | codeGenerator.py:15-33 | A generation that succeeds started from a stored counter of at least -1. From -2 downwards it can only raise. |
| CodePool.GenerateRaisesIff | codeGenerator.py:21-27 | Generation raises iff some used code is not an encoding of `1..current_max`. It then raises `NotInList` on a used code and writes nothing. |
| CodePool.GenerateSucceeds | codeGenerator.py:21-27 | When every used code encodes a counter in `1..current_max`, generation succeeds. |
| CodePool.GenerateShape | codeGenerator.py:15-35 | On success the pool is either the filtered list plus one batch, with the counter raised by one batch, or just the filtered list, with the first-pass counter. |
| CodePool.GenerateCounter | codeGenerator.py:15-35 | The persisted counter never decreases, and a stored 0 ends as at least `BATCH_SIZE`. It is one batch above the first pass iff the filtered pool held fewer than `LOW_WATERMARK` codes. Otherwise it is the first-pass value. |
| CodePool.GenerateWritesOnlyCounter | codeGenerator.py:35 | The only write of a successful generation is one `set_setting('current_max', ...)`. So the url table and the other settings are unchanged, the remote tier is untouched, and exactly one upsert task is queued. |
| CodePool.GeneratePoolContents | codeGenerator.py:21-33 | After generation the pool is the encodings of `1..current_max'`, in ascending counter order, minus the used codes. |
| CodePool.FilterThenExtend | codeGenerator.py:29-33 | Extending after filtering equals filtering the whole range, because the extension lies above every used code. |
| CodePool.PoolFromShape | codeGenerator.py:29-35 | Both outcomes of a successful generation are the encodings up to the persisted counter, minus the used codes. |
| CodePool.FreshCodes | codeGenerator.py:21-33 | The filtered list plus any extension has no duplicates, no used code and no empty code. |
| CodePool.ShapeIsFresh | codeGenerator.py:21-33 | Either outcome of a successful generation is a non-empty pool of distinct, unused, non-empty codes. |
| CodePool.GenerateKeepsInvariant | codeGenerator.py:12-36 | After a successful generation the pool is non-empty, has no duplicates and holds no used or empty code. |
| CodePool.GenerateDiscardsOldPool | codeGenerator.py:21 | The previous pool has no influence on a generation. |
| CodePool.GenerateKeepsConsistent | codeGenerator.py:12-36 | From a non-negative counter under which every used code was issued, generation succeeds and reaches the steady state. It does not lower the counter and leaves the url table unchanged. |
| CodePool.GenerateKeepsReplicated | codeGenerator.py:35 | Generation keeps the two tiers in step through the queue. |
| CodePool.IssuedGrows | codeGenerator.py:29-35 | A larger counter issues every code a smaller one did. |
| CodePool.GetCodeRegeneratesIff | codeGenerator.py:45-46 | The store changes iff the pool was below `LOW_WATERMARK` and the regeneration succeeded. The new store is then the one generation produces. |
| CodePool.GetCodeTakesOne | codeGenerator.py:49-50 | From a pool without duplicates, or one about to be regenerated, the returned code sat at the chosen index of the replenished pool. The pool loses exactly that element, keeps the others in order, and shrinks by one. |
| CodePool.GetCodeNeverEmpty | codeGenerator.py:49-55 | The call never reaches `randint(0, -1)`, and any returned code is non-empty, so the `else` branch at line 55 is unreachable. |
| CodePool.GetCodeKeepsInvariant | codeGenerator.py:39-56 | After a successful call the pool invariant holds, the returned code is unused and out of the pool, and the url table is unchanged. |
| CodePool.GetCodeKeepsConsistent | codeGenerator.py:39-56 | In the steady state a request always succeeds. It returns an issued code that is unused and no longer pooled, keeps the steady state, and does not lower the counter. |
| CodePool.GetCodeKeepsReplicated | codeGenerator.py:39-56 | Every call keeps the two tiers in step through the queue. |
| App.Redirect | app.py:35-40 | A code redirects iff it has a stored, non-empty link, and then to that link. Otherwise the answer is 404. |
| App.ShortenCounter | app.py:27-33 | A `/shorten` request never lowers the stored counter. |
| App.ShortenAll | app.py:27-33 | A run of requests answers each one. The counter never decreases, and every state along the way is one that generation handles. |
| App.ShortenBinds | app.py:27-33 | In the steady state `/shorten` succeeds, so the 500 at line 31 is unreachable. The code was unbound and is then bound to the link, every other code keeps its link, and the steady state holds again. |
| App.BindKeepsConsistent | app.py:32 | Binding a code that is issued, unbound and out of the pool keeps the steady state. |
| App.ShortenThenRedirect | app.py:27-40 | Right after shortening a link, its code redirects to it. The exception is an empty link, which gives 404. |
| App.ShortenKeepsLinks | app.py:27-33 | A `/shorten` request only adds to the url table. Every code bound before keeps its link, since generation writes only the counter and the insert never overwrites a bound code. |
| App.ShortenKeepsCanGenerate | app.py:27-33 | After a `/shorten` request, generation still returns or raises rather than hanging: the counter does not drop and no bound code is lost. |
| App.ShortenKeepsReplicated | app.py:27-33 | Every `/shorten` request keeps the two tiers in step through the queue. |
| App.ShortenAllDistinct | app.py:27-33 | From the steady state a run of requests all succeed and return pairwise distinct codes, none bound before. Each code ends bound to its own link. |
| App.ShortenAllKeepsLinks | app.py:27-33 | A code bound before a run of requests keeps its link, from any state the run accepts. |
| App.StartupReady | app.py:19-25 | Startup raises iff some remote code is not an issued encoding. Otherwise it reaches the steady state, and with an empty queue the tiers are in step. |
| App.ShutdownReplicates | app.py:42-46 | Once every queued task has run, the remote tier equals the local one. |

## Left out

- Connections and the environment are not modelled: the `POSTGRES_URI` check, the asyncpg pool, the aiosqlite connection, `PRAGMA`, `CREATE TABLE` and the `ensure_*` functions (database.py:9-58). They are I/O plumbing, and a table is a map.
- Replication tasks are not modelled as concurrent. `asyncio.create_task`, the task registry and out-of-order completion (database.py:13, 60-66) become an in-order queue, and the shutdown `gather` becomes running the whole queue. Tasks that finish out of order, or fail, are not modelled.
- `asyncio.Lock` is not modelled (codeGenerator.py:10, 14, 42); the model is the sequential intent. The code as written deadlocks: `get_code_for_new_url` holds the non-reentrant lock while it calls `generate_codes_if_needed`, which acquires the same lock again (codeGenerator.py:42-46). The model treats that call as if the inner acquisition succeeded.
- Three calls are not awaited in the code: `get_setting` (codeGenerator.py:15), `get_url_codes` (codeGenerator.py:23) and `get_link` (app.py:37). Each is modelled as the read it evidently intends. As written, each yields a coroutine object instead of the stored value.
- The import of `cursor` from `database` (codeGenerator.py:3) names nothing that module defines, so the import would fail. It is not modelled.
- `random.randint` (codeGenerator.py:49) is replaced by a caller-supplied `choice`, reduced modulo the pool size. Every index is reachable this way.
- FastAPI routing, `HTTPException` framing, `RedirectResponse`, `BASE_URL`, the pydantic request model, `load_dotenv` and every `print` are left out. They are HTTP wiring and logging. Handlers return a `Result` with an `HttpError`.
- Integer widths of SQLite and Postgres are not modelled: counters and setting values are unbounded `int`.
- Base62.Encode: takes a `nat` only. For a negative `n`, Python's `divmod` loop never reaches 0 and `int_to_base62` does not return.
- CodePool.GenerateCodesIfNeeded: excludes one case, a stored counter of -2 or less with an empty url table. There the list at codeGenerator.py:21 is empty, nothing is removed, and the extension range at line 33 passes negative numbers to the encoder, which then never returns. A counter of -2 or less with a used code is modelled: `list.remove` raises `NotInList` at line 27 before the extension is reached.
- CodePool.GeneratePoolContents: stated only for a stored counter of at least 0. At -1, the extension range starts at 0, so the pool also holds the encoding of 0.
- CodePool.GenerateCounter: its lower bound of `BATCH_SIZE` is stated for a stored counter of 0, which is the case the code promises. A stored -1 ends at `BATCH_SIZE - 1`.
- CodePool.GenerateRaisesIff: when generation raises, the model keeps the partly filtered list as the new pool, as the global assignment at codeGenerator.py:21 does. No lemma states more about that list than the error.
- App.StartupReady: requires a non-negative remote counter. At -1 the pool would include the encoding of 0, which is outside the steady-state invariant.
- App.Redirect: an empty link is stored as any other link. The handler then answers 404, because `if not link` treats it as missing.
