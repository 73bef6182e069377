/**
 The reader's buckets are plain JavaScript objects created by `{}`, filled by
 `data.local[key] = ...`, `data.session[key] = ...` and
 `data.cookies[key] = ...`. Such an assignment does not create a property
 when the key is `__proto__`: the name resolves to the accessor inherited from
 `Object.prototype`, whose setter ignores a value that is not an object. This
 module models the assignment as written and shows that it loses exactly
 that one key, compared with the map the rest of the model uses.
 */
module PropertyAssignment {
  import opened JsStrings
  import StorageReader

  const ProtoKey: JsString := Units("__proto__")

  /** `obj[key] = value` with a string `value` on an object whose prototype is
      `Object.prototype`. */
  function AssignProperty(obj: map<JsString, JsString>, key: JsString, value: JsString): (r: map<JsString, JsString>)
    ensures r - {ProtoKey} == obj[key := value] - {ProtoKey}
    ensures ProtoKey in r <==> ProtoKey in obj
    ensures ProtoKey in r ==> r[ProtoKey] == obj[ProtoKey]
  {
    if key == ProtoKey then obj else obj[key := value]
  }

  /** The storage loop as written: each pair assigned into `{}` in turn. */
  function ObjectFromEntries(entries: StorageReader.StorageEntries): (obj: map<JsString, JsString>)
    ensures ProtoKey !in obj
    decreases |entries|
  {
    if entries == [] then map[]
    else
      var last := entries[|entries| - 1];
      AssignProperty(ObjectFromEntries(entries[..|entries| - 1]), last.0, last.1)
  }

  /** The loop with plain map updates, which is what the reader is meant to
      compute. */
  function PlainFromEntries(entries: StorageReader.StorageEntries): map<JsString, JsString>
    decreases |entries|
  {
    if entries == [] then map[]
    else
      var last := entries[|entries| - 1];
      PlainFromEntries(entries[..|entries| - 1])[last.0 := last.1]
  }

  /** The plain loop meets the reader's specification. */
  lemma {:induction false} PlainReadsExactly(entries: StorageReader.StorageEntries)
    ensures StorageReader.ReadsExactly(entries, PlainFromEntries(entries))
    decreases |entries|
  {
    if entries != [] {
      var init := entries[..|entries| - 1];
      var last := entries[|entries| - 1];
      PlainReadsExactly(init);
      StorageReader.CopyOneMore(init, PlainFromEntries(init), last.0, last.1);
      assert init + [(last.0, last.1)] == entries;
    }
  }

  /** The object as written is the intended map without the key `__proto__`. */
  lemma {:induction false} AsWrittenDropsOnlyProto(entries: StorageReader.StorageEntries)
    ensures ObjectFromEntries(entries) == PlainFromEntries(entries) - {ProtoKey}
    decreases |entries|
  {
    if entries != [] {
      var init := entries[..|entries| - 1];
      AsWrittenDropsOnlyProto(init);
    }
  }

  /** For every enumeration, the popup's bucket as written holds what the
      corrected reader returns, except that a key `__proto__` is lost. */
  lemma AsWrittenAgainstReader(entries: StorageReader.StorageEntries, m: map<JsString, JsString>)
    requires StorageReader.ReadsExactly(entries, m)
    ensures ObjectFromEntries(entries) == m - {ProtoKey}
  {
    PlainReadsExactly(entries);
    StorageReader.ReadsExactlyUnique(entries, m, PlainFromEntries(entries));
    AsWrittenDropsOnlyProto(entries);
  }

  /** The counterexample: a storage area holding one item named `__proto__`
      comes out of the loop as written as an empty bucket (so the popup shows
      "No items found"), while the corrected reader keeps the item. */
  lemma ProtoKeyDropped(value: JsString, m: map<JsString, JsString>)
    requires StorageReader.ReadsExactly([(ProtoKey, value)], m)
    ensures ObjectFromEntries([(ProtoKey, value)]) == map[]
    ensures ProtoKey in m && m[ProtoKey] == value
  {
    var entries := [(ProtoKey, value)];
    assert entries[..0] == [];
    assert StorageReader.LastWithKey(entries, 0);
  }
}
