/** The persistent key-value store the client stores write to: the
    Electron store when present, otherwise localStorage. Both are one class
    here; a value is a string or a stored user record. */
module KeyValue {
  import opened Wrappers

  /** The user record the user store persists; None stands for null. */
  datatype SessionUser = SessionUser(
    userId: Option<string>,
    userRole: Option<string>,
    userFullName: Option<string>,
    userProfileImage: Option<string>)

  datatype StoredValue = Text(text: string) | Record(user: SessionUser)

  /** The value under a key, None when the key is absent. */
  function Lookup(entries: map<string, StoredValue>, key: string): (r: Option<StoredValue>)
    ensures r.Some? <==> key in entries
    ensures r.Some? ==> r.value == entries[key]
  {
    if key in entries then Some(entries[key]) else None
  }

  class KeyValueStore {
    var entries: map<string, StoredValue>

    constructor (entries: map<string, StoredValue>)
      ensures this.entries == entries
    {
      this.entries := entries;
    }

    method Get(key: string) returns (v: Option<StoredValue>)
      ensures v == Lookup(entries, key)
    {
      v := if key in entries then Some(entries[key]) else None;
    }

    method Set(key: string, v: StoredValue)
      modifies this
      ensures entries == old(entries)[key := v]
    {
      entries := entries[key := v];
    }

    method Delete(key: string)
      modifies this
      ensures entries == old(entries) - {key}
    {
      entries := entries - {key};
    }
  }

  /** A value set under a key reads back; other keys are untouched. */
  lemma LookupAfterSet(entries: map<string, StoredValue>, key: string, other: string, v: StoredValue)
    ensures Lookup(entries[key := v], key) == Some(v)
    ensures other != key ==> Lookup(entries[key := v], other) == Lookup(entries, other)
    ensures Lookup(entries - {key}, key) == None
  {
  }
}
