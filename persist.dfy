/**
  The persistence step of populate.py: a photo dictionary is written to Redis
  as a hash under the key "flickr_" + photo_id (HMSET), and that key is added
  to the sorted set "flickr" with the photo id as its score (ZADD). Redis is
  reduced to the two kinds of value these commands touch.
*/
module Persist {
  import opened Wrappers
  import opened Extract

  /** Prefix of every photo hash key. */
  const IMAGE_PREFIX_REDIS: string := "flickr_"

  /** Name of the sorted set that indexes the photo hashes. */
  const IMAGE_SET_NAME_REDIS: string := "flickr"

  /** `''.join([prefix, None])` raises TypeError when the dictionary has no usable photo_id. */
  datatype JoinError = TypeError

  /** A sorted set: member to score. */
  type SortedSet = map<string, string>

  /** The part of the Redis keyspace the harvester writes: hashes and sorted sets by key. */
  datatype Redis = Redis(hashes: map<string, Record>, sortedSets: map<string, SortedSet>)

  /** The hash key of the photo with the given id. */
  function RecordKey(photoId: string): (name: string)
    ensures |name| == |IMAGE_PREFIX_REDIS| + |photoId|
  {
    IMAGE_PREFIX_REDIS + photoId
  }

  /** The key starts with the prefix and the photo id can be read back from what follows it. */
  lemma RecordKeyParts(photoId: string)
    ensures |RecordKey(photoId)| == |IMAGE_PREFIX_REDIS| + |photoId|
    ensures RecordKey(photoId)[..|IMAGE_PREFIX_REDIS|] == IMAGE_PREFIX_REDIS
    ensures RecordKey(photoId)[|IMAGE_PREFIX_REDIS|..] == photoId
  {
  }

  /** Different photo ids never share a hash key. */
  lemma RecordKeyInjective(a: string, b: string)
    ensures RecordKey(a) == RecordKey(b) <==> a == b
  {
    RecordKeyParts(a);
    RecordKeyParts(b);
  }

  /** The index's own key is never the key of a photo hash, so the two never clash in Redis. */
  lemma IndexNameIsNoRecordKey(photoId: string)
    ensures RecordKey(photoId) != IMAGE_SET_NAME_REDIS
  {
    assert |RecordKey(photoId)| > |IMAGE_SET_NAME_REDIS|;
  }

  /**
    The name `photo_dictionary_into_redis` builds: "flickr_" + photo_id, or a
    TypeError when photo_id is missing or `None`.
  */
  function KeyOf(photoDictionary: Record): (name: Result<string, JoinError>)
    ensures name.Success? <==> Get(photoDictionary, "photo_id").Some? && photoDictionary["photo_id"].Some?
    ensures name.Success? ==> name.value == RecordKey(photoDictionary["photo_id"].value)
  {
    var photoId := Get(photoDictionary, "photo_id");
    if photoId.Some? && photoId.value.Some? then Success(RecordKey(photoId.value.value))
    else Failure(TypeError)
  }

  /** The fields of hash `name`, empty when Redis has no such key. */
  function HashAt(s: Redis, name: string): Record {
    if name in s.hashes then s.hashes[name] else map[]
  }

  /** The members of sorted set `key` with their scores, empty when Redis has no such key. */
  function SortedSetAt(s: Redis, key: string): SortedSet {
    if key in s.sortedSets then s.sortedSets[key] else map[]
  }

  /** The hash holds every field of the mapping with the mapping's value. */
  ghost predicate Holds(hash: Record, mapping: Record) {
    forall f :: f in mapping ==> f in hash && hash[f] == mapping[f]
  }

  /**
    HMSET name mapping: sets the given fields of hash `name`, creating it when
    absent; fields of the hash not in the mapping are kept, and nothing else changes.
  */
  function AfterHmset(s: Redis, name: string, mapping: Record): (r: Redis)
    ensures r.sortedSets == s.sortedSets
    ensures r.hashes.Keys == s.hashes.Keys + {name}
    ensures Holds(r.hashes[name], mapping)
    ensures forall f :: f in HashAt(s, name) && f !in mapping ==> f in r.hashes[name] && r.hashes[name][f] == HashAt(s, name)[f]
    ensures r.hashes[name].Keys == HashAt(s, name).Keys + mapping.Keys
    ensures forall n :: n in s.hashes && n != name ==> r.hashes[n] == s.hashes[n]
  {
    s.(hashes := s.hashes[name := HashAt(s, name) + mapping])
  }

  /**
    ZADD key score member: adds `member` to sorted set `key` with `score`, or
    updates its score; every other member and every other key is unchanged.
  */
  function AfterZadd(s: Redis, key: string, score: string, member: string): (r: Redis)
    ensures r.hashes == s.hashes
    ensures r.sortedSets.Keys == s.sortedSets.Keys + {key}
    ensures r.sortedSets[key].Keys == SortedSetAt(s, key).Keys + {member}
    ensures r.sortedSets[key][member] == score
    ensures forall m :: m in SortedSetAt(s, key) && m != member ==> r.sortedSets[key][m] == SortedSetAt(s, key)[m]
    ensures forall k :: k in s.sortedSets && k != key ==> r.sortedSets[k] == s.sortedSets[k]
  {
    s.(sortedSets := s.sortedSets[key := SortedSetAt(s, key)[member := score]])
  }

  /** Redis after `photo_dictionary_into_redis(photoDictionary)`: HMSET, then ZADD; unchanged on TypeError. */
  function IntoRedis(s: Redis, photoDictionary: Record): (r: Redis)
    ensures KeyOf(photoDictionary).Failure? ==> r == s
    ensures KeyOf(photoDictionary).Success? ==> KeyOf(photoDictionary).value in r.hashes
  {
    match KeyOf(photoDictionary)
    case Failure(_) => s
    case Success(name) =>
      AfterZadd(AfterHmset(s, name, photoDictionary), IMAGE_SET_NAME_REDIS, photoDictionary["photo_id"].value, name)
  }

  /**
    The effect of `photo_dictionary_into_redis` on the hashes: on TypeError
    nothing changes; otherwise the hash "flickr_" + photo_id holds every field
    of the dictionary and no other hash changes.
  */
  lemma IntoRedisHashes(s: Redis, photoDictionary: Record)
    ensures KeyOf(photoDictionary).Failure? ==> IntoRedis(s, photoDictionary) == s
    ensures KeyOf(photoDictionary).Success? ==>
      var name, r := KeyOf(photoDictionary).value, IntoRedis(s, photoDictionary);
      && r.hashes.Keys == s.hashes.Keys + {name}
      && Holds(r.hashes[name], photoDictionary)
      && (forall n :: n in s.hashes && n != name ==> r.hashes[n] == s.hashes[n])
  {
  }

  /**
    The effect of `photo_dictionary_into_redis` on the index: the sorted set
    "flickr" holds the key "flickr_" + photo_id scored by photo_id, and no
    other member and no other sorted set changes.
  */
  lemma IntoRedisIndex(s: Redis, photoDictionary: Record)
    ensures KeyOf(photoDictionary).Success? ==>
      var name, r := KeyOf(photoDictionary).value, IntoRedis(s, photoDictionary);
      && SortedSetAt(r, IMAGE_SET_NAME_REDIS).Keys == SortedSetAt(s, IMAGE_SET_NAME_REDIS).Keys + {name}
      && SortedSetAt(r, IMAGE_SET_NAME_REDIS)[name] == photoDictionary["photo_id"].value
      && (forall m :: m in SortedSetAt(s, IMAGE_SET_NAME_REDIS) && m != name ==>
            SortedSetAt(r, IMAGE_SET_NAME_REDIS)[m] == SortedSetAt(s, IMAGE_SET_NAME_REDIS)[m])
      && r.sortedSets - {IMAGE_SET_NAME_REDIS} == s.sortedSets - {IMAGE_SET_NAME_REDIS}
  {
    if KeyOf(photoDictionary).Success? {
      var r := IntoRedis(s, photoDictionary);
      assert r.sortedSets - {IMAGE_SET_NAME_REDIS} == s.sortedSets - {IMAGE_SET_NAME_REDIS};
    }
  }

  /**
    The Redis connection. Its fields are the hashes and sorted sets of the
    keyspace; HMSET and ZADD update them in place.
  */
  class RedisStore {
    var hashes: map<string, Record>
    var sortedSets: map<string, SortedSet>

    /** The current contents as a value. */
    function State(): Redis
      reads this
    {
      Redis(hashes, sortedSets)
    }

    /** An empty database. */
    constructor ()
      ensures State() == Redis(map[], map[])
    {
      hashes := map[];
      sortedSets := map[];
    }

    /** HMSET name mapping. */
    method Hmset(name: string, mapping: Record)
      modifies this
      ensures State() == AfterHmset(old(State()), name, mapping)
    {
      var hash := if name in hashes then hashes[name] else map[];
      hashes := hashes[name := hash + mapping];
    }

    /** ZADD key score member. */
    method Zadd(key: string, score: string, member: string)
      modifies this
      ensures State() == AfterZadd(old(State()), key, score, member)
    {
      var members := if key in sortedSets then sortedSets[key] else map[];
      sortedSets := sortedSets[key := members[member := score]];
    }
  }

  /**
    `photo_dictionary_into_redis`: writes the dictionary as the hash
    "flickr_" + photo_id, adds that key to the sorted set "flickr" scored by
    photo_id, and returns the key. A missing or `None` photo_id raises
    TypeError before anything is written.
  */
  method PhotoDictionaryIntoRedis(redis: RedisStore, photoDictionary: Record)
    returns (name: Result<string, JoinError>)
    modifies redis
    ensures name == KeyOf(photoDictionary)
    ensures redis.State() == IntoRedis(old(redis.State()), photoDictionary)
  {
    var photoId := Get(photoDictionary, "photo_id");
    if photoId.None? || photoId.value.None? {
      return Failure(TypeError);
    }
    var key := IMAGE_PREFIX_REDIS + photoId.value.value;
    redis.Hmset(key, photoDictionary);
    redis.Zadd(IMAGE_SET_NAME_REDIS, photoId.value.value, key);
    return Success(key);
  }

  /** HMSET followed by ZADD, spelt out as one update of the two maps. */
  lemma IntoRedisUpdates(s: Redis, photoDictionary: Record)
    requires KeyOf(photoDictionary).Success?
    ensures var name := KeyOf(photoDictionary).value;
      IntoRedis(s, photoDictionary) == Redis(
        s.hashes[name := HashAt(s, name) + photoDictionary],
        s.sortedSets[IMAGE_SET_NAME_REDIS :=
          SortedSetAt(s, IMAGE_SET_NAME_REDIS)[name := photoDictionary["photo_id"].value]])
  {
  }

  /** Writing the same dictionary twice leaves Redis as writing it once. */
  lemma IntoRedisIdempotent(s: Redis, photoDictionary: Record)
    ensures IntoRedis(IntoRedis(s, photoDictionary), photoDictionary) == IntoRedis(s, photoDictionary)
  {
    if KeyOf(photoDictionary).Success? {
      var name := KeyOf(photoDictionary).value;
      var photoId := photoDictionary["photo_id"].value;
      var once := IntoRedis(s, photoDictionary);
      IntoRedisUpdates(s, photoDictionary);
      IntoRedisUpdates(once, photoDictionary);
      assert HashAt(once, name) + photoDictionary == HashAt(once, name);
      assert SortedSetAt(once, IMAGE_SET_NAME_REDIS)[name := photoId] == SortedSetAt(once, IMAGE_SET_NAME_REDIS);
    }
  }

  /**
    HMSET and ZADD touch different parts of Redis, so one worker's HMSET may
    run between another worker's HMSET and ZADD without changing the result.
  */
  lemma HmsetZaddCommute(s: Redis, name: string, mapping: Record, key: string, score: string, member: string)
    ensures AfterZadd(AfterHmset(s, name, mapping), key, score, member)
         == AfterHmset(AfterZadd(s, key, score, member), name, mapping)
  {
  }

  /** Two HMSETs of different hashes give the same Redis in either order. */
  lemma HmsetsCommute(s: Redis, name1: string, mapping1: Record, name2: string, mapping2: Record)
    requires name1 != name2
    ensures AfterHmset(AfterHmset(s, name1, mapping1), name2, mapping2)
         == AfterHmset(AfterHmset(s, name2, mapping2), name1, mapping1)
  {
    var s1, s2 := AfterHmset(s, name1, mapping1), AfterHmset(s, name2, mapping2);
    assert HashAt(s1, name2) == HashAt(s, name2) && HashAt(s2, name1) == HashAt(s, name1);
    UpdatesCommute(s.hashes, name1, HashAt(s, name1) + mapping1, name2, HashAt(s, name2) + mapping2);
  }

  /** Two ZADDs of different members give the same Redis in either order. */
  lemma ZaddsCommute(s: Redis, key: string, score1: string, member1: string, score2: string, member2: string)
    requires member1 != member2
    ensures AfterZadd(AfterZadd(s, key, score1, member1), key, score2, member2)
         == AfterZadd(AfterZadd(s, key, score2, member2), key, score1, member1)
  {
    var z := SortedSetAt(s, key);
    UpdatesCommute(z, member1, score1, member2, score2);
    assert AfterZadd(AfterZadd(s, key, score1, member1), key, score2, member2).sortedSets
        == s.sortedSets[key := z[member1 := score1][member2 := score2]];
    assert AfterZadd(AfterZadd(s, key, score2, member2), key, score1, member1).sortedSets
        == s.sortedSets[key := z[member2 := score2][member1 := score1]];
  }

  /** Updates of two different keys of a map can be done in either order. */
  lemma UpdatesCommute<K, V>(m: map<K, V>, k1: K, v1: V, k2: K, v2: V)
    requires k1 != k2
    ensures m[k1 := v1][k2 := v2] == m[k2 := v2][k1 := v1]
  {
  }

  /**
    Two dictionaries with different photo ids can be written in either order
    with the same result, so the order in which the persistence workers run
    does not matter.
  */
  lemma IntoRedisCommutes(s: Redis, a: Record, b: Record)
    requires KeyOf(a).Success? && KeyOf(b).Success? ==> a["photo_id"] != b["photo_id"]
    ensures IntoRedis(IntoRedis(s, a), b) == IntoRedis(IntoRedis(s, b), a)
  {
    if KeyOf(a).Success? && KeyOf(b).Success? {
      var na, nb := KeyOf(a).value, KeyOf(b).value;
      var ia, ib := a["photo_id"].value, b["photo_id"].value;
      RecordKeyInjective(ia, ib);
      WriteBothInOrder(s, a, b);
      WriteBothInOrder(s, b, a);
      var z := SortedSetAt(s, IMAGE_SET_NAME_REDIS);
      UpdatesCommute(z, na, ia, nb, ib);
      UpdatesCommute(s.hashes, na, HashAt(s, na) + a, nb, HashAt(s, nb) + b);
    }
  }

  /** Writing `a` then `b` under two different keys, as one update of each map. */
  lemma WriteBothInOrder(s: Redis, a: Record, b: Record)
    requires KeyOf(a).Success? && KeyOf(b).Success? && KeyOf(a) != KeyOf(b)
    ensures var na, nb := KeyOf(a).value, KeyOf(b).value;
      IntoRedis(IntoRedis(s, a), b) == Redis(
        s.hashes[na := HashAt(s, na) + a][nb := HashAt(s, nb) + b],
        s.sortedSets[IMAGE_SET_NAME_REDIS := SortedSetAt(s, IMAGE_SET_NAME_REDIS)
          [na := a["photo_id"].value][nb := b["photo_id"].value]])
  {
    var na, nb := KeyOf(a).value, KeyOf(b).value;
    var sa := IntoRedis(s, a);
    IntoRedisUpdates(s, a);
    IntoRedisUpdates(sa, b);
    assert HashAt(sa, nb) == HashAt(s, nb);
  }

  /** The dictionary of a photo always has a usable photo_id: its key is "flickr_" + id. */
  lemma PhotoDictionaryKey(photo: Photo)
    ensures KeyOf(GetPhotoDictionary(photo)) == Success(RecordKey(photo.id))
  {
  }

  /**
    Writing the dictionary of a photo always succeeds, returns "flickr_" + id,
    stores every field of the dictionary under that key and indexes the key
    with the photo id as score.
  */
  lemma PhotoIsStored(s: Redis, photo: Photo)
    ensures KeyOf(GetPhotoDictionary(photo)) == Success(RecordKey(photo.id))
    ensures var r := IntoRedis(s, GetPhotoDictionary(photo));
      && Holds(r.hashes[RecordKey(photo.id)], GetPhotoDictionary(photo))
      && SortedSetAt(r, IMAGE_SET_NAME_REDIS)[RecordKey(photo.id)] == photo.id
    ensures var r := IntoRedis(s, GetPhotoDictionary(photo));
      HashAt(s, RecordKey(photo.id)).Keys <= RecordFields ==>
        r.hashes[RecordKey(photo.id)] == GetPhotoDictionary(photo)
  {
    var rec := GetPhotoDictionary(photo);
    var r := IntoRedis(s, rec);
    if HashAt(s, RecordKey(photo.id)).Keys <= RecordFields {
      assert r.hashes[RecordKey(photo.id)] == rec;
    }
  }

  /** The keys a sequence of dictionaries is written under (those with a usable photo_id). */
  ghost function KeysOf(records: seq<Record>): set<string> {
    set i | 0 <= i < |records| && KeyOf(records[i]).Success? :: KeyOf(records[i]).value
  }

  lemma KeysOfCons(records: seq<Record>)
    requires records != []
    ensures KeysOf(records) ==
      (if KeyOf(records[0]).Success? then {KeyOf(records[0]).value} else {}) + KeysOf(records[1..])
  {
    var rest := records[1..];
    forall k | k in KeysOf(records)
      ensures k in (if KeyOf(records[0]).Success? then {KeyOf(records[0]).value} else {}) + KeysOf(rest)
    {
      var i :| 0 <= i < |records| && KeyOf(records[i]).Success? && k == KeyOf(records[i]).value;
      if i > 0 {
        assert records[i] == rest[i - 1];
      }
    }
    forall k | k in KeysOf(rest) ensures k in KeysOf(records) {
      var j :| 0 <= j < |rest| && KeyOf(rest[j]).Success? && k == KeyOf(rest[j]).value;
      assert rest[j] == records[j + 1];
    }
  }

  /**
    Redis after the persistence workers wrote every dictionary of the
    sequence, in the order of the sequence.
  */
  function WriteAll(s: Redis, records: seq<Record>): (r: Redis)
    ensures s.hashes.Keys <= r.hashes.Keys
    decreases |records|
  {
    if records == [] then s else WriteAll(IntoRedis(s, records[0]), records[1..])
  }

  /**
    Nothing but the dictionaries' own keys is written to the hashes: after
    the writes the hashes are the old ones plus one per usable photo_id, and
    every other hash is unchanged.
  */
  lemma {:induction false} WriteAllHashKeys(s: Redis, records: seq<Record>)
    ensures var r := WriteAll(s, records);
      && r.hashes.Keys == s.hashes.Keys + KeysOf(records)
      && forall n :: n in s.hashes && n !in KeysOf(records) ==> r.hashes[n] == s.hashes[n]
    decreases |records|
  {
    if records == [] {
      assert KeysOf(records) == {};
    } else {
      var s1 := IntoRedis(s, records[0]);
      assert WriteAll(s, records) == WriteAll(s1, records[1..]);
      IntoRedisHashes(s, records[0]);
      WriteAllHashKeys(s1, records[1..]);
      KeysOfCons(records);
    }
  }

  /**
    The index gains exactly the dictionaries' keys: after the writes the
    members of "flickr" are the old ones plus one per usable photo_id, every
    other member keeps its score, and no other sorted set changes.
  */
  lemma {:induction false} WriteAllIndexKeys(s: Redis, records: seq<Record>)
    ensures var r := WriteAll(s, records);
      && SortedSetAt(r, IMAGE_SET_NAME_REDIS).Keys == SortedSetAt(s, IMAGE_SET_NAME_REDIS).Keys + KeysOf(records)
      && r.sortedSets - {IMAGE_SET_NAME_REDIS} == s.sortedSets - {IMAGE_SET_NAME_REDIS}
      && forall m :: m in SortedSetAt(s, IMAGE_SET_NAME_REDIS) && m !in KeysOf(records) ==>
           SortedSetAt(r, IMAGE_SET_NAME_REDIS)[m] == SortedSetAt(s, IMAGE_SET_NAME_REDIS)[m]
    decreases |records|
  {
    if records == [] {
      assert KeysOf(records) == {};
    } else {
      var s1 := IntoRedis(s, records[0]);
      assert WriteAll(s, records) == WriteAll(s1, records[1..]);
      IntoRedisIndex(s, records[0]);
      WriteAllIndexKeys(s1, records[1..]);
      KeysOfCons(records);
    }
  }

  /** After the writes, the key of every dictionary with a usable photo_id is in "flickr" scored by that id. */
  lemma {:induction false} WriteAllScores(s: Redis, records: seq<Record>)
    ensures forall i :: 0 <= i < |records| && KeyOf(records[i]).Success? ==>
      var zr := SortedSetAt(WriteAll(s, records), IMAGE_SET_NAME_REDIS);
      KeyOf(records[i]).value in zr && zr[KeyOf(records[i]).value] == records[i]["photo_id"].value
    decreases |records|
  {
    if records != [] {
      var rest := records[1..];
      var s1 := IntoRedis(s, records[0]);
      var zr := SortedSetAt(WriteAll(s, records), IMAGE_SET_NAME_REDIS);
      assert WriteAll(s, records) == WriteAll(s1, rest);
      WriteAllScores(s1, rest);
      if KeyOf(records[0]).Success? {
        var k, id := KeyOf(records[0]).value, records[0]["photo_id"].value;
        assert k in zr && zr[k] == id by {
          IntoRedisIndex(s, records[0]);
          WriteAllIndexKeys(s1, rest);
          if k in KeysOf(rest) {
            var j :| 0 <= j < |rest| && KeyOf(rest[j]).Success? && k == KeyOf(rest[j]).value;
            RecordKeyInjective(id, rest[j]["photo_id"].value);
          }
        }
      }
      forall i | 0 < i < |records| && KeyOf(records[i]).Success?
        ensures KeyOf(records[i]).value in zr && zr[KeyOf(records[i]).value] == records[i]["photo_id"].value
      {
        assert records[i] == rest[i - 1];
      }
    }
  }

  /** No later dictionary of the sequence is written under the same key as dictionary `i`. */
  ghost predicate LastWithKey(records: seq<Record>, i: int) {
    && 0 <= i < |records|
    && KeyOf(records[i]).Success?
    && forall j :: i < j < |records| ==> KeyOf(records[j]) != KeyOf(records[i])
  }

  /** After the writes, the hash of the last dictionary written under each key holds all of that dictionary's fields. */
  lemma {:induction false} WriteAllRecords(s: Redis, records: seq<Record>)
    ensures forall i :: LastWithKey(records, i) ==>
      var r := WriteAll(s, records);
      KeyOf(records[i]).value in r.hashes && Holds(r.hashes[KeyOf(records[i]).value], records[i])
    decreases |records|
  {
    if records != [] {
      var rest := records[1..];
      var s1 := IntoRedis(s, records[0]);
      var r := WriteAll(s, records);
      assert r == WriteAll(s1, rest);
      WriteAllRecords(s1, rest);
      forall i | LastWithKey(records, i)
        ensures KeyOf(records[i]).value in r.hashes && Holds(r.hashes[KeyOf(records[i]).value], records[i])
      {
        var k := KeyOf(records[i]).value;
        if i == 0 {
          assert k in s1.hashes && Holds(s1.hashes[k], records[0]) by {
            IntoRedisHashes(s, records[0]);
          }
          assert k !in KeysOf(rest) by {
            forall j | 0 <= j < |rest| && KeyOf(rest[j]).Success? ensures KeyOf(rest[j]).value != k {
              assert rest[j] == records[j + 1];
            }
          }
          assert k in r.hashes && r.hashes[k] == s1.hashes[k] by {
            WriteAllHashKeys(s1, rest);
          }
        } else {
          assert records[i] == rest[i - 1];
          assert LastWithKey(rest, i - 1);
        }
      }
    }
  }

  /** The dictionaries the fetch workers produce for a batch of photos, one per photo. */
  function Dictionaries(photos: seq<Photo>): (records: seq<Record>)
    ensures |records| == |photos|
    ensures forall i :: 0 <= i < |photos| ==> records[i] == GetPhotoDictionary(photos[i])
  {
    seq(|photos|, i requires 0 <= i < |photos| => GetPhotoDictionary(photos[i]))
  }

  /** The hash keys of a batch of photos. */
  ghost function PhotoKeys(photos: seq<Photo>): set<string> {
    set i | 0 <= i < |photos| :: RecordKey(photos[i].id)
  }

  /** No later photo of the batch has the same id as photo `i`. */
  ghost predicate LastWithId(photos: seq<Photo>, i: int) {
    && 0 <= i < |photos|
    && forall j :: i < j < |photos| ==> photos[j].id != photos[i].id
  }

  /**
    A whole harvest, once both queues are joined: every photo of the batch is
    extracted and its dictionary written. No photo is dropped and nothing
    else is written: the hashes and the members of "flickr" are the old ones
    plus "flickr_" + id for each photo, each such member is scored by its id,
    and the hash of the last photo with each id holds all of its fields,
    whatever the description and size lookups did.
  */
  lemma HarvestStoresEveryPhoto(s: Redis, photos: seq<Photo>)
    ensures var r := WriteAll(s, Dictionaries(photos));
      && r.hashes.Keys == s.hashes.Keys + PhotoKeys(photos)
      && SortedSetAt(r, IMAGE_SET_NAME_REDIS).Keys == SortedSetAt(s, IMAGE_SET_NAME_REDIS).Keys + PhotoKeys(photos)
    ensures var zr := SortedSetAt(WriteAll(s, Dictionaries(photos)), IMAGE_SET_NAME_REDIS);
      forall i :: 0 <= i < |photos| ==> zr[RecordKey(photos[i].id)] == photos[i].id
    ensures var r := WriteAll(s, Dictionaries(photos));
      forall i :: LastWithId(photos, i) ==>
        Holds(r.hashes[RecordKey(photos[i].id)], GetPhotoDictionary(photos[i]))
  {
    var records := Dictionaries(photos);
    var r := WriteAll(s, records);
    forall i | 0 <= i < |photos| ensures KeyOf(records[i]) == Success(RecordKey(photos[i].id)) {
      PhotoDictionaryKey(photos[i]);
    }
    assert KeysOf(records) == PhotoKeys(photos) by {
      forall k | k in PhotoKeys(photos) ensures k in KeysOf(records) {
        var i :| 0 <= i < |photos| && k == RecordKey(photos[i].id);
        assert KeyOf(records[i]).Success?;
      }
    }
    WriteAllHashKeys(s, records);
    WriteAllIndexKeys(s, records);
    WriteAllScores(s, records);
    WriteAllRecords(s, records);
    forall i | 0 <= i < |photos|
      ensures SortedSetAt(r, IMAGE_SET_NAME_REDIS)[RecordKey(photos[i].id)] == photos[i].id
    {
      assert KeyOf(records[i]).Success?;
    }
    forall i | LastWithId(photos, i)
      ensures Holds(r.hashes[RecordKey(photos[i].id)], GetPhotoDictionary(photos[i]))
    {
      forall j | i < j < |photos| ensures KeyOf(records[j]) != KeyOf(records[i]) {
        RecordKeyInjective(photos[j].id, photos[i].id);
      }
      assert LastWithKey(records, i);
    }
  }
}
