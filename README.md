# Paging REST provider, modelled in Dafny

This project models the server half of the vaadin-rest-example paging contract:
the `RESTProvider` controller (`src/main/java/backend/restprovider/RESTProvider.java`).
It serves a virtual dataset of `SIZE = 10000` records through two operations.

- `count()` reports the dataset size.
- `data(count, offset)` rejects windows longer than `MAX_COUNT = 500` or reaching past
  `SIZE`. Otherwise it lazily generates the missing records of the window into its
  `BACKEND` tree map, then returns the map's values for the keys in
  `[offset, offset + count)`.

A record is generated at most once, from random lorem-ipsum words. Its title and
message never contain a period or a comma.

The project has four modules.

- `JavaLang` (`java_lang.dfy`) covers the Java semantics the provider leans on:
  - 32-bit `int` addition with wrap-around (`Wrap`);
  - `String.replace` of one character by the empty string (`RemoveAll`);
  - `String.trim` (`Trim`).
- `RestModel` (`rest_model.dfy`) holds the values and the specification functions:
  - the values are records, errors, results, the abstract word generator and the table of state;
  - `Ensured` is the table after the `ensureData` loop;
  - `SubMapValues` is `subMap(lo, hi).values()`;
  - `DataReply` is a whole `data` request.
- `RestModelProperties` (`rest_model_properties.dfy`) proves what the provider promises
  about those functions.
- `RestProvider` (`rest_provider.dfy`) is the controller as a class with the same
  fields and methods. Each method is proved against the specification functions.

### How the model represents the provider

- **State.** `backend` is the `BACKEND` map. `draws` counts the `rand.nextInt` calls
  made so far. The random source is the abstract `Generator.wordAt`: the word chosen by
  the k-th draw. `WordUtils.capitalizeFully` is `Generator.capitalize`. So one
  `generateDataItem` consumes five draws for the title and fifteen for the message.
- **Class invariant.** `Valid()` says three things:
  - every entry is stored under its own id (a Java `int`) and has clean texts;
  - the ghost record maker `make` is `generateDataItem` (`MakesItems`);
  - `make` produces clean records with the requested id (`SoundMaker`).
- **Results.** `Data` returns a `Result`. The two exceptions a request can raise become
  `Failure` values:
  - the "indexes outside bounds" `RuntimeException` (`BoundsExceeded`);
  - the `IllegalArgumentException` of `TreeMap.subMap` when its lower key exceeds its
    upper key (`IllegalArgument`).
- **State change before an exception.** Records created before `subMap` throws stay
  in the table, as they do in Java.

### Where the code and its documented parameters differ

The model follows the code in each case.

- The Javadoc of `data` (lines 62-63) describes `count` as how many items are
  returned and `offset` as the index the data starts from, so both are meant to be
  non-negative. The code checks neither.
  - A negative offset is served: `DataNegativeOffset` shows ten records with ids −5 to 4.
  - A negative count whose sum with `offset` does not underflow skips the loop and
    then makes `subMap` throw (`DataNegativeCount`).
  - A negative count whose sum with `offset` underflows below `MIN_INT` wraps up past
    `offset`. If the wrapped sum is at most 10000, the request is accepted. The loop
    still does not run, and `subMap` serves every stored record from `offset` up to
    the wrapped sum (`DataNegativeCountWraps`). This bypasses the 500-record cap:
    `count = MIN_INT + 5000, offset = MIN_INT` serves every stored record with a key
    in [0, 5000), table unchanged (`DataCapBypassed`).
- The bounds check adds `count + offset` as Java `int`s, so the sum can wrap.
  `offset = MAX_INT, count = 1` passes the check. The loop then creates the record for
  key `MAX_INT`. Then `offset + count` wraps to `MIN_INT` and `subMap` throws. The
  request fails, but the table has grown (`DataOverflow`).

## Model

| member | source | states |
|---|---|---|
| JavaLang.Wrap | src/main/java/backend/restprovider/RESTProvider.java:86 | the sum `offset + i` as a Java `int` is always in the `int` range, and equals the exact sum when that is in range |
| JavaLang.WrapCongruent | src/main/java/backend/restprovider/RESTProvider.java:69 | the wrapped sum differs from the exact one by a multiple of 2^32, as two's-complement addition does |
| JavaLang.WrapUnderflow | src/main/java/backend/restprovider/RESTProvider.java:69 | a sum below `MIN_INT` by less than 2^32, as two negative `int`s give, wraps up by exactly 2^32 |
| JavaLang.RemoveAll | src/main/java/backend/restprovider/RESTProvider.java:96 | `replace(c, "")` leaves no `c`; a character occurs in the result iff it occurs in the input and is not `c`; the result is no longer than the input |
| JavaLang.RemoveAllCounts | src/main/java/backend/restprovider/RESTProvider.java:96-97 | `replace(c, "")` deletes every `c` and keeps each other character exactly as many times as it occurs |
| JavaLang.RemoveAllAbsent | src/main/java/backend/restprovider/RESTProvider.java:96-97 | replacing a character that does not occur returns the string unchanged |
| JavaLang.RemoveAllConcat | src/main/java/backend/restprovider/RESTProvider.java:96-97 | `replace(c, "")` of a concatenation is the concatenation of the replaced parts, so the kept characters stay in their order |
| JavaLang.LeadingTrimmed | src/main/java/backend/restprovider/RESTProvider.java:111 | the leading half of `trim`: the skipped prefix is all characters up to U+0020, and the next character (if any) is not |
| JavaLang.TrailingTrimmed | src/main/java/backend/restprovider/RESTProvider.java:111 | the trailing half of `trim`: the skipped suffix is all characters up to U+0020, and the character before it (if any) is not |
| JavaLang.Trim | src/main/java/backend/restprovider/RESTProvider.java:111 | `trim()` returns a string no longer than its input that neither starts nor ends with a character up to U+0020 |
| JavaLang.TrimInfix | src/main/java/backend/restprovider/RESTProvider.java:111 | `trim()` returns the infix of its input left after dropping a prefix and a suffix made only of characters up to U+0020; with `Trim`'s own ends this fixes the result |
| JavaLang.TrimUntrimmed | src/main/java/backend/restprovider/RESTProvider.java:111 | a string that neither starts nor ends with a character up to U+0020 is its own `trim()` |
| JavaLang.TrimIdempotent | src/main/java/backend/restprovider/RESTProvider.java:111 | trimming a trimmed string changes nothing |
| RestModel.Strip | src/main/java/backend/restprovider/RESTProvider.java:96-97 | `replace(".", "").replace(",", "")` leaves no period and no comma, and keeps exactly the other characters |
| RestModel.Joined | src/main/java/backend/restprovider/RESTProvider.java:103-109 | the string builder after `n` rounds: each drawn word followed by a space, so it holds at least `n` characters |
| RestModel.GeneratedString | src/main/java/backend/restprovider/RESTProvider.java:102-112 | a generated string is never empty and always ends with a period |
| RestModel.ItemAt | src/main/java/backend/restprovider/RESTProvider.java:93-99 | the generated record carries the requested index as its id, and its title and message hold no period and no comma |
| RestModel.WellFormed | src/main/java/backend/restprovider/RESTProvider.java:86-95 | the class invariant: every key is a Java `int` and holds the record with that id and clean texts; kept by `EnsuredWellFormed` and `DataWellFormed` |
| RestModel.Index | src/main/java/backend/restprovider/RESTProvider.java:86 | the key of round `i` is `offset + i` as a Java `int`: always an `int`, the exact sum when that is in range |
| RestModel.WindowKeys | src/main/java/backend/restprovider/RESTProvider.java:84-86 | the set of keys `offset + i` (as `int`s) for `0 ≤ i < n`; `WindowKeysContiguous` shows it is `[offset, offset + n)` when nothing overflows |
| RestModel.EnsureStep | src/main/java/backend/restprovider/RESTProvider.java:86-89 | one round for key `k`: afterwards `k` is stored and no key is lost; a present key is left alone, an absent one gets `make`'s record and costs ITEM_DRAWS draws |
| RestModel.Ensured | src/main/java/backend/restprovider/RESTProvider.java:84-90 | the table after `n` rounds of the loop, the round `i` visiting `Index(offset, i)`; nothing happens for `n ≤ 0`; its properties are the `Ensured*` lemmas below |
| RestModel.SubMapValues | src/main/java/backend/restprovider/RESTProvider.java:77 | `subMap(lo, hi).values()` for `lo ≤ hi` holds at most `hi - lo` values; its properties are the `SubMapValues*` lemmas below |
| RestModel.InBounds | src/main/java/backend/restprovider/RESTProvider.java:69 | the bounds check passes iff `count ≤ 500` and `count + offset` as a Java `int` is at most 10000 |
| RestModel.DataReply | src/main/java/backend/restprovider/RESTProvider.java:65-80 | a whole `data` request: rejection, the loop, then `subMap` with the wrapped upper key, which fails with `IllegalArgument` below `offset`; its properties are the `Data*` lemmas below |
| RestModelProperties.StripCounts | src/main/java/backend/restprovider/RESTProvider.java:96-97 | stripping deletes every period and comma and keeps every other character as many times as it occurs |
| RestModelProperties.StripIdempotent | src/main/java/backend/restprovider/RESTProvider.java:96-97 | stripping an already stripped text changes nothing |
| RestModelProperties.WindowKeysContiguous | src/main/java/backend/restprovider/RESTProvider.java:84-86 | when `offset + count` does not overflow, the loop visits exactly the keys `offset ≤ k < offset + count` |
| RestModelProperties.ItemMakerSound | src/main/java/backend/restprovider/RESTProvider.java:93-99 | `generateDataItem` as a record maker builds `ItemAt`'s records, stamps the index as id and keeps texts clean |
| RestModelProperties.ItemAtParts | src/main/java/backend/restprovider/RESTProvider.java:93-97 | the generated record is the id with the stripped title drawn first and the stripped message drawn after it |
| RestModelProperties.EnsuredAgree | src/main/java/backend/restprovider/RESTProvider.java:84-90 | the loop's outcome depends only on the records the maker produces |
| RestModelProperties.EnsuredByItems | src/main/java/backend/restprovider/RESTProvider.java:84-99 | any maker that builds `generateDataItem`'s records fills the table exactly as `generateDataItem` does |
| RestModelProperties.EnsuredKeys | src/main/java/backend/restprovider/RESTProvider.java:84-90 | after the loop the keys are the old keys plus every visited key `offset + i` (as Java `int`s), and no other |
| RestModelProperties.EnsuredCovers | src/main/java/backend/restprovider/RESTProvider.java:84-90 | after the loop every visited key is stored |
| RestModelProperties.EnsuredKeeps | src/main/java/backend/restprovider/RESTProvider.java:87-89 | no record stored before the loop is overwritten or removed |
| RestModelProperties.EnsuredWellFormed | src/main/java/backend/restprovider/RESTProvider.java:87-88 | the loop keeps the invariant: every entry sits under its own id with clean texts |
| RestModelProperties.EnsuredDraws | src/main/java/backend/restprovider/RESTProvider.java:87-106 | the keys only grow, and the loop spends exactly twenty random draws per newly created record and none on present keys |
| RestModelProperties.EnsuredNoOp | src/main/java/backend/restprovider/RESTProvider.java:87 | when every visited key is already present, the loop changes nothing, not even the random source |
| RestModelProperties.EnsuredIdempotent | src/main/java/backend/restprovider/RESTProvider.java:84-90 | running the loop twice over the same window is running it once |
| RestModelProperties.SubMapValuesFull | src/main/java/backend/restprovider/RESTProvider.java:77 | when every key of `[lo, hi)` is present, the sub-map holds `hi - lo` values, the one for key `lo + j` at position `j` |
| RestModelProperties.SubMapValuesStored | src/main/java/backend/restprovider/RESTProvider.java:77 | over a well-formed map, every value of the sub-map is a stored record whose id lies in `[lo, hi)` |
| RestModelProperties.SubMapValuesAscending | src/main/java/backend/restprovider/RESTProvider.java:77 | over a well-formed map, the sub-map's values are in strictly ascending id order |
| RestModelProperties.SubMapValuesComplete | src/main/java/backend/restprovider/RESTProvider.java:77 | every record stored under a key of `[lo, hi)` is among the sub-map's values |
| RestModelProperties.SubMapValuesSplit | src/main/java/backend/restprovider/RESTProvider.java:77 | the sub-map of `[lo, hi)` split at `mid` is the sub-map of `[lo, mid)` followed by that of `[mid, hi)` |
| RestModelProperties.DataRejected | src/main/java/backend/restprovider/RESTProvider.java:69-71 | a request fails with `BoundsExceeded` iff `count > 500` or `count + offset` (as a Java `int`) exceeds 10000, and a rejected request leaves the table untouched |
| RestModelProperties.DataNegativeCount | src/main/java/backend/restprovider/RESTProvider.java:69-77 | a negative count that passes the check and whose sum with `offset` does not underflow creates nothing and fails in `subMap` with `IllegalArgument`, table unchanged |
| RestModelProperties.DataNegativeCountWraps | src/main/java/backend/restprovider/RESTProvider.java:69-77 | a negative count that passes the check but whose sum with `offset` underflows wraps to `offset + count + 2^32 > offset`; nothing is created and every stored record from `offset` up to that key is served, table unchanged |
| RestModelProperties.DataCapBypassed | src/main/java/backend/restprovider/RESTProvider.java:69-77 | `count = MIN_INT + h, offset = MIN_INT` (0 ≤ h ≤ 10000) is accepted and serves every stored record with a key in [0, h), at least `h` records, table unchanged: the 500-record cap does not hold |
| RestModelProperties.DataWindow | src/main/java/backend/restprovider/RESTProvider.java:66-79 | an accepted, non-overflowing window is served with exactly `count` records with ids `offset, …, offset + count - 1` in order, each the stored record; the table gains exactly the window's keys and keeps every old entry |
| RestModelProperties.DataByItems | src/main/java/backend/restprovider/RESTProvider.java:74-77 | the reply and new table are fixed by the generator: any maker that builds `generateDataItem`'s records gives the same reply |
| RestModelProperties.DataRepeat | src/main/java/backend/restprovider/RESTProvider.java:74-77 | repeating a request returns the identical reply (ids, titles, messages or the same error) and leaves the table as the first call did |
| RestModelProperties.DataWellFormed | src/main/java/backend/restprovider/RESTProvider.java:66-80 | every request, served or failed, keeps the invariant that entries sit under their own ids with clean texts |
| RestModelProperties.DataKeeps | src/main/java/backend/restprovider/RESTProvider.java:66-80 | no request overwrites or removes a stored record |
| RestModelProperties.DataServesSubMap | src/main/java/backend/restprovider/RESTProvider.java:77-79 | a served list is in strictly ascending id order, each element is the stored record for its id, and every stored record with key in the window is present, even for an overflowing window |
| RestModelProperties.DataNegativeOffset | src/main/java/backend/restprovider/RESTProvider.java:69-77 | a negative offset is not rejected: `(count 10, offset -5)` serves ten records with ids -5 … 4 |
| RestModelProperties.DataOverflow | src/main/java/backend/restprovider/RESTProvider.java:69-77 | `offset = MAX_INT, count = 1` passes the check by wrap-around, creates the record for `MAX_INT` (spending twenty draws if new) and then fails in `subMap` |
| RestModelProperties.DataEdgeCases | src/main/java/backend/restprovider/RESTProvider.java:69-77 | `(501, 0)` and `(1, 10000)` are rejected with the table unchanged; `(0, 10000)` is served as the empty list with the table unchanged |
| RestProvider.Provider.constructor | src/main/java/backend/restprovider/RESTProvider.java:40-45 | a new provider has an empty `BACKEND`, has made no draws and satisfies the invariant |
| RestProvider.Provider.Count | src/main/java/backend/restprovider/RESTProvider.java:52-55 | `count()` is always 10000 and changes nothing |
| RestProvider.Provider.GenerateString | src/main/java/backend/restprovider/RESTProvider.java:102-112 | the loop makes exactly `numWords` draws and returns `GeneratedString` for the draws it made |
| RestProvider.Provider.GenerateDataItem | src/main/java/backend/restprovider/RESTProvider.java:93-99 | makes exactly twenty draws and returns `make`'s record for the draws made before the call: id `dataIndex`, clean texts |
| RestProvider.Provider.EnsureData | src/main/java/backend/restprovider/RESTProvider.java:82-91 | the new state is `Ensured` of the old one (see its lemmas above), every visited key is stored, and the invariant holds |
| RestProvider.Provider.Data | src/main/java/backend/restprovider/RESTProvider.java:65-80 | the result and the new state are `DataReply` of the old state (see its lemmas above); the result is `BoundsExceeded` iff the bounds check fails; the invariant holds |

## Left out

- The `System.out.println` trace (line 68) is output only and is not modelled.
- The word vocabulary and the distribution of `java.util.Random` are not modelled
  (lines 31-40, 106). `Generator.wordAt(k)` stands for the word chosen by the k-th draw,
  whatever it is.
- `WordUtils.capitalizeFully` is not modelled (line 111). `Generator.capitalize`
  stands for it.
- The titles and messages are therefore not pinned to particular words. The model
  proves their structure: the number of draws, stripping and trimming.
- RESTData.java is not part of this model. `Record` carries the id, title and message
  that the provider sets (lines 94-97).
- Spring's request mapping and JSON serialisation (`@RestController`, `@GetMapping`)
  are not modelled. The methods are called directly.
- Concurrent requests are not modelled. A Spring controller is a shared singleton and
  `TreeMap` is not synchronised. The model is sequential.
- The client-side services, the UI views, the DTOs and the application classes of the
  repository are not part of this model.
- JavaLang.Trim: its own contract states only the length and the two ends. That the
  result is the infix of the input between trimmed ends is lemma `TrimInfix`, kept out
  of the function's contract so that the generated texts stay cheap to reason about.
- RestModel.Joined: its own contract gives only a length bound. Its exact content is
  its definition, which `GenerateString`'s loop invariant follows.
- RestProvider.Provider.GenerateString: takes a `nat` word count. For a negative
  count the Java loop would simply not run. The provider only passes 5 and 15.
- RestProvider.Provider.EnsureData: its contract gives the new state as `Ensured` and
  the coverage of the window. Two further properties are proved as lemmas about
  `Ensured` (`EnsuredKeeps`, `EnsuredKeys`) instead of being repeated as `ensures`:
  - no stored record changes;
  - no other key is added.
- RestProvider.Provider.Data: its contract gives the reply as `DataReply` and states
  the rejection condition. The window shape, ordering and memoisation are proved as
  lemmas about `DataReply` (`DataWindow`, `DataServesSubMap`, `DataRepeat`,
  `DataKeeps`).
- The draw counter is an unbounded natural number. The state of `java.util.Random`
  itself is not modelled.
