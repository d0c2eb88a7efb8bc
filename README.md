# bliberedis populate: photo records into Redis, in Dafny

`populate.py` harvests metadata about photos of the British Library's Flickr
collection and stores it in Redis. For each photo handle a fetch worker builds a
flat photo dictionary (id, title, description, five size-variant URLs, and the
URL, width and height of the Original size). A persistence worker then writes
that dictionary as the Redis hash `"flickr_" + photo_id` and adds the key to the
sorted set `"flickr"`, scored by the photo id.

This project models that per-photo core and proves what it promises:

- `wrappers.dfy`, module `Wrappers`: `Option`, `Result` and Python's `dict.get`.
- `extract.dfy`, module `Extract`: the photo handle, `get_original_data`,
  `get_description` and `get_photo_dictionary`. The handle is a datatype. Its
  two XML-parsing accessors, `description` and `getSizes`, are `Result` values
  whose failure is `ExpatError`. A size entry is a `map<string, string>`. The
  photo dictionary is a `map<string, Option<string>>` with the source's own key
  names, including the misspelt `descripton`. `get_original_data` is a method
  with the source's search loop. It is proved equal to the function
  `OriginalData`, whose contract states the first-match rule.
- `persist.dfy`, module `Persist`: the constants `IMAGE_PREFIX_REDIS` and
  `IMAGE_SET_NAME_REDIS`, the Redis connection as the class `RedisStore`, and
  `photo_dictionary_into_redis`. `RedisStore` holds the hashes and the sorted
  sets (member to score) in two map fields. Its methods `Hmset` and `Zadd`
  update those fields in place. `photo_dictionary_into_redis` is a method that
  takes the store as a parameter, the way the source uses the global
  `REDIS_HANDLE`. It is proved against the function `IntoRedis` on a `Redis`
  value. The lemmas about `IntoRedis` state the key, the stored fields, the
  index entry, the frame, idempotence and commutation. `WriteAll` composes
  `IntoRedis` over a sequence of dictionaries. It is the net effect of the
  persistence workers for one order in which they ran, and the lemmas about it
  show that no photo is dropped and nothing else is written.

HMSET is modelled as Redis defines it: it sets the given fields of a hash and
keeps the other fields the hash already has. ZADD adds a member or updates its
score. A dictionary without a usable `photo_id` makes `''.join` raise
`TypeError` before anything is written. That is modelled as
`Failure(TypeError)`, and Redis is left unchanged.

Where the file's own comments and its code disagree, the model follows the code:

- The docstring of `get_photo_dictionary` promises a description key, but the value is written under the misspelt key `descripton` (populate.py:74, 80).
- The module docstring says the sorted set follows the order of the Flickr search results, but each key is scored by its photo id string (populate.py:9-11, 103).

## Model

| member | source | states |
|---|---|---|
| `Wrappers.Get` | populate.py:86-88 | Python's `dict.get`, also used at populate.py:47 and 98: the result is present exactly when the key is in the dictionary, and it is then the key's value. |
| `Extract.IsOriginal` | populate.py:47 | An entry is the Original size exactly when it has a `label` key whose value is `Original`. |
| `Extract.FindOriginal` | populate.py:45-48 | The position found is the first size entry whose label is `Original`, and no earlier entry has that label. `None` means no entry has that label. |
| `Extract.OriginalData` | populate.py:40-53 | The original data is empty when `getSizes` raises `ExpatError`. Otherwise it is empty exactly when no entry is labelled `Original`, and it is the first such entry when one exists. |
| `Extract.GetOriginalData` | populate.py:40-53 | The loop with its early return yields exactly `OriginalData`: the first `Original` entry, or `{}` on `ExpatError` or when nothing matches. |
| `Extract.GetDescription` | populate.py:55-68 | The result is `Some(description)` exactly when the accessor succeeds, and `None` when it raises `ExpatError`. It never fails. |
| `Extract.GetPhotoDictionary` | populate.py:70-90 | The dictionary always exists and has exactly the eleven keys, `descripton` included. `photo_id` and `title` are the handle's id and title, whatever the lookups did. |
| `Extract.DescriptionField` | populate.py:76-80 | The `descripton` field holds the description when the accessor succeeds, and `None` when it raises. |
| `Extract.OriginalFieldsFromFirstOriginal` | populate.py:75-88 | `original_url`, `width` and `height` are the `source`, `width` and `height` of the first `Original` entry. When `getSizes` raised or no entry matched, all three are `None` together. |
| `Extract.DescriptionFailureIsLocal` | populate.py:76-89 | Changing what the description accessor returns or raises changes no field except `descripton`. |
| `Extract.SizeLookupIsLocal` | populate.py:75-88 | Changing what `getSizes` returns or raises changes no field except `original_url`, `width` and `height`. |
| `Extract.SizeVariantUrls` | populate.py:81-85 | The square, thumbnail, small, medium and large URLs are always present and equal the handle's own accessors. |
| `Persist.RecordKey` | populate.py:99 | The key is the prefix `"flickr_"` joined with the photo id, so its length is the sum of theirs. `RecordKeyParts` and `RecordKeyInjective` carry the rest. |
| `Persist.RecordKeyParts` | populate.py:99 | A hash key is `"flickr_"` followed by the photo id, and the id can be read back from it. |
| `Persist.RecordKeyInjective` | populate.py:99 | Two photo ids give the same hash key exactly when they are equal. |
| `Persist.IndexNameIsNoRecordKey` | populate.py:37-38 | No hash key equals the index name `"flickr"`, so the hashes and the index never share a Redis key. |
| `Persist.KeyOf` | populate.py:98-99 | The key is `"flickr_" + photo_id` exactly when `photo_id` is present and not `None`. Otherwise the join raises `TypeError`. |
| `Persist.AfterHmset` | populate.py:100 | HMSET creates or extends hash `name` with every field of the mapping, keeps the hash's other fields, and changes no other hash and no sorted set. |
| `Persist.AfterZadd` | populate.py:103 | ZADD gives the member the score, keeps the other members and their scores, and changes no other sorted set and no hash. |
| `Persist.RedisStore.Hmset` | populate.py:100 | The store's new contents are `AfterHmset` of its old contents. |
| `Persist.RedisStore.Zadd` | populate.py:103 | The store's new contents are `AfterZadd` of its old contents. |
| `Persist.PhotoDictionaryIntoRedis` | populate.py:92-104 | The method returns `"flickr_" + photo_id`, or `TypeError` when there is no usable `photo_id`. The store's new contents are `IntoRedis` of its old contents: HMSET, then ZADD, and nothing on `TypeError`. |
| `Persist.IntoRedis` | populate.py:98-103 | Redis is unchanged when the key cannot be built. Otherwise the hash `"flickr_" + photo_id` exists afterwards. The full effect is stated by `IntoRedisHashes` and `IntoRedisIndex`. |
| `Persist.IntoRedisHashes` | populate.py:98-100 | On `TypeError` Redis is unchanged. Otherwise the hash `"flickr_" + photo_id` holds every field of the dictionary, and every other hash is unchanged. |
| `Persist.IntoRedisIndex` | populate.py:98-103 | The members of `"flickr"` gain exactly the key, which is scored by `photo_id`. Every other member keeps its score, and no other sorted set changes. |
| `Persist.IntoRedisIdempotent` | populate.py:98-103 | Writing the same dictionary twice leaves Redis as writing it once. |
| `Persist.IntoRedisCommutes` | populate.py:130-137 | Two whole `photo_dictionary_into_redis` calls with different photo ids give the same Redis in either order. |
| `Persist.HmsetZaddCommute` | populate.py:100-103 | An HMSET and a ZADD give the same Redis in either order. |
| `Persist.HmsetsCommute` | populate.py:100 | Two HMSETs of different hashes give the same Redis in either order. |
| `Persist.ZaddsCommute` | populate.py:103 | Two ZADDs of different members give the same Redis in either order. |
| `Persist.PhotoDictionaryKey` | populate.py:78-99 | Every photo dictionary has a usable `photo_id`, so its key is `"flickr_" + id`. |
| `Persist.PhotoIsStored` | populate.py:77-104 | Writing a photo's dictionary stores all its fields under `"flickr_" + id` and scores the key by the id. The hash equals the dictionary when the old hash had no other fields. |
| `Persist.WriteAll` | populate.py:130-137 | A sequence of writes never removes a hash. The `WriteAll` lemmas below carry the rest of its effect. |
| `Persist.Dictionaries` | populate.py:116-121 | The fetch stage yields one dictionary per photo: the i-th dictionary is `get_photo_dictionary` of the i-th photo. |
| `Persist.WriteAllHashKeys` | populate.py:130-137 | After a sequence of writes, the hash keys are the old ones plus one key per usable `photo_id`. Every other hash is unchanged. |
| `Persist.WriteAllIndexKeys` | populate.py:130-137 | After a sequence of writes, the members of `"flickr"` are the old ones plus those keys. Other members keep their scores, and other sorted sets are unchanged. |
| `Persist.WriteAllScores` | populate.py:130-137 | After a sequence of writes, every written key is in `"flickr"` and is scored by its dictionary's `photo_id`. |
| `Persist.WriteAllRecords` | populate.py:130-137 | After a sequence of writes, the hash of the last dictionary written under each key holds all of that dictionary's fields. |
| `Persist.HarvestStoresEveryPhoto` | populate.py:149-179 | Once every photo of the batch has been extracted and written, the hashes and the index each hold the old keys plus `"flickr_" + id` for every photo. Each index entry is scored by its id, and the last photo with each id has all its fields stored, whatever its lookups did. |

## Left out

- The thread classes `PhotoDictionaryThread` and `PhotoDictionaryRedisThread`, the pools of 200 and 20 daemon threads, and the `Queue` put/get/task_done/join protocol (populate.py:106-179) are concurrency. The model keeps their net effect on Redis instead. `WriteAll` and `HarvestStoresEveryPhoto` cover one serial order of the writes, and `IntoRedisCommutes` shows that two whole writes with different photo ids may run in either order. When two persistence threads interleave their HMSET and ZADD commands, `HmsetZaddCommute`, `HmsetsCommute` and `ZaddsCommute` show that each pair of adjacent commands from writes with different ids can be swapped, so every interleaving gives the same Redis as the serial order. The model does not state that for whole interleavings in a single lemma.
- The Flickr search with its page loop, the API key and the British Library NSID (populate.py:27-31, 145-160) are remote I/O. The batch of photo handles is a parameter.
- The Redis connection setup (populate.py:34) is a network client. Redis is reduced to hashes and sorted sets in separate maps. Redis's single keyspace with its WRONGTYPE errors is not modelled, and `IndexNameIsNoRecordKey` shows the harvester never makes those two kinds of key collide.
- The sorted set keeps member-to-score pairs. The order Redis derives from the scores is not modelled, and neither is the parsing of a score as a floating-point number: a non-numeric photo id would make ZADD fail in Redis.
- The client library's encoding of values is not modelled. A `None` field is stored as the model's `None`, whatever the client library would send or reject for it.
- Size-entry values are taken as strings. populate.py copies the `source`, `width` and `height` values unconverted (populate.py:86-88), and the value types the flickr package stores in a size entry are not modelled.
- The handle's accessors are taken as given. Only `ExpatError` from `description` and `getSizes` is modelled. Any other exception would propagate out of `get_photo_dictionary` and end the worker thread, and that is not modelled. The five size-variant URL accessors never fail.
- The progress characters written to `sys.stdout` (populate.py:51-52, 66-67, 119-120, 135-136), the `print` messages and the wall-clock timing in `timeit` (populate.py:181-186) are console output and floating-point timing.
