/**
 * The per-render registry of GitgraphUI.tsx: `commitsElements` maps a commit's
 * abbreviated hash to the refs of its branch label, its tags and its message.
 * It is filled while the commits render (`createBranchLabelRef`,
 * `createTagRef`, `createMessageRef`, `initCommitElements`) and read back by
 * `positionCommitsElements` after the render.
 */
module Registry {
  import opened JsValues

  /** A `React.createRef()` object, named by the order of creation. */
  type RefId = nat

  /** The refs registered for one commit. */
  datatype Entry = Entry(branchLabel: Option<RefId>, tags: seq<RefId>, message: Option<RefId>)

  /** What `initCommitElements` stores. */
  const EmptyEntry := Entry(None, [], None)

  /** The entry a `create*Ref` call extends: the registered one, or a fresh empty one. */
  function EntryOrEmpty(entries: map<string, Entry>, hash: string): Entry {
    if hash in entries then entries[hash] else EmptyEntry
  }

  /** `Object.keys` order after storing under `hash`: a new key goes last, an existing one keeps its place. */
  function KeysAfterStore(keys: seq<string>, entries: map<string, Entry>, hash: string): seq<string> {
    if hash in entries then keys else keys + [hash]
  }

  /** The consecutive ref ids `from`, `from + 1`, ..., `from + count - 1`. */
  function RefRange(from: nat, count: nat): (rs: seq<RefId>)
    ensures |rs| == count
    ensures forall i :: 0 <= i < count ==> rs[i] == from + i
  {
    if count == 0 then [] else RefRange(from, count - 1) + [from + count - 1]
  }

  predicate RefsBelow(e: Entry, bound: nat) {
    && (e.branchLabel.Some? ==> e.branchLabel.value < bound)
    && (forall i :: 0 <= i < |e.tags| ==> e.tags[i] < bound)
    && (e.message.Some? ==> e.message.value < bound)
  }

  /** Every key is listed once, and every registered ref is below `bound`. */
  ghost predicate Registered(entries: map<string, Entry>, keys: seq<string>, bound: nat) {
    && (forall k :: k in entries <==> k in keys)
    && (forall i, j :: 0 <= i < j < |keys| ==> keys[i] != keys[j])
    && (forall k :: k in entries ==> RefsBelow(entries[k], bound))
  }

  /** Every listed key has an entry. */
  lemma KeysRegistered(entries: map<string, Entry>, keys: seq<string>, bound: nat)
    requires Registered(entries, keys, bound)
    ensures forall i :: 0 <= i < |keys| ==> keys[i] in entries
  {
  }

  /** Storing an empty entry keeps the registry well formed. */
  lemma InitKeeps(entries: map<string, Entry>, keys: seq<string>, bound: nat, hash: string)
    requires Registered(entries, keys, bound)
    ensures Registered(entries[hash := EmptyEntry], KeysAfterStore(keys, entries, hash), bound)
  {
    var keys' := KeysAfterStore(keys, entries, hash);
    forall i, j | 0 <= i < j < |keys'|
      ensures keys'[i] != keys'[j]
    {
      if hash !in entries && j == |keys| {
        assert keys[i] in entries;
      }
    }
  }

  /** Creating a ref keeps every registered ref below the next one. */
  lemma CreateKeeps(entries: map<string, Entry>, keys: seq<string>, bound: nat)
    requires Registered(entries, keys, bound)
    ensures Registered(entries, keys, bound + 1)
  {
    forall k | k in entries
      ensures RefsBelow(entries[k], bound + 1)
    {
      assert RefsBelow(entries[k], bound);
    }
  }

  /** A tag ref created before `bound`, appended to an entry whose refs are below `bound`, keeps them below it. */
  lemma TagBelow(e: Entry, r: RefId, bound: nat)
    requires RefsBelow(e, bound) && r < bound
    ensures RefsBelow(e.(tags := e.tags + [r]), bound)
  {
  }

  /** Replacing a registered entry by one whose refs are all created keeps the registry well formed. */
  lemma UpdateKeeps(entries: map<string, Entry>, keys: seq<string>, bound: nat, hash: string, e: Entry)
    requires Registered(entries, keys, bound) && hash in entries && RefsBelow(e, bound)
    ensures Registered(entries[hash := e], keys, bound)
  {
  }

  class CommitsElements {
    /** `commitsElements[hashAbbrev]` */
    var entries: map<string, Entry>
    /** The order in which `Object.keys` lists the entries. */
    var keys: seq<string>
    /** The id the next `React.createRef()` returns. */
    var nextRef: nat

    /** Every key is listed once, and every registered ref was created before. */
    ghost predicate Valid()
      reads this
    {
      Registered(entries, keys, nextRef)
    }

    /** The empty registry each render starts from. */
    constructor()
      ensures entries == map[] && keys == [] && nextRef == 0
      ensures Valid()
    {
      entries := map[];
      keys := [];
      nextRef := 0;
    }

    /** `initCommitElements`: an empty entry under the commit's hash. */
    method InitCommitElements(hash: string)
      requires Valid()
      modifies this
      ensures Valid()
      ensures entries == old(entries)[hash := EmptyEntry]
      ensures keys == KeysAfterStore(old(keys), old(entries), hash)
      ensures nextRef == old(nextRef)
    {
      InitKeeps(entries, keys, nextRef, hash);
      keys := KeysAfterStore(keys, entries, hash);
      entries := entries[hash := EmptyEntry];
    }

    /** `React.createRef()` */
    method CreateRef() returns (r: RefId)
      requires Valid()
      modifies this
      ensures Valid()
      ensures r == old(nextRef) && nextRef == old(nextRef) + 1
      ensures entries == old(entries) && keys == old(keys)
    {
      CreateKeeps(entries, keys, nextRef);
      r := nextRef;
      nextRef := nextRef + 1;
    }

    /** `if (!this.commitsElements[hash]) this.initCommitElements(hash)`, the first step of every `create*Ref`. */
    method EnsureEntry(hash: string)
      requires Valid()
      modifies this
      ensures Valid()
      ensures entries == old(entries)[hash := EntryOrEmpty(old(entries), hash)]
      ensures keys == KeysAfterStore(old(keys), old(entries), hash)
      ensures nextRef == old(nextRef)
    {
      if hash !in entries {
        InitCommitElements(hash);
      } else {
        assert entries == entries[hash := entries[hash]];
      }
    }

    /** `createBranchLabelRef`: a new ref becomes the commit's branch label, replacing any earlier one. */
    method CreateBranchLabelRef(hash: string) returns (r: RefId)
      requires Valid()
      modifies this
      ensures Valid()
      ensures r == old(nextRef) && nextRef == old(nextRef) + 1
      ensures entries == old(entries)[hash := EntryOrEmpty(old(entries), hash).(branchLabel := Some(r))]
      ensures keys == KeysAfterStore(old(keys), old(entries), hash)
    {
      ghost var entries0 := entries;
      r := CreateRef();
      EnsureEntry(hash);
      var e := entries[hash].(branchLabel := Some(r));
      UpdateKeeps(entries, keys, nextRef, hash, e);
      entries := entries[hash := e];
      assert entries == entries0[hash := e];
    }

    /** `createMessageRef`: a new ref becomes the commit's message, replacing any earlier one. */
    method CreateMessageRef(hash: string) returns (r: RefId)
      requires Valid()
      modifies this
      ensures Valid()
      ensures r == old(nextRef) && nextRef == old(nextRef) + 1
      ensures entries == old(entries)[hash := EntryOrEmpty(old(entries), hash).(message := Some(r))]
      ensures keys == KeysAfterStore(old(keys), old(entries), hash)
    {
      ghost var entries0 := entries;
      r := CreateRef();
      EnsureEntry(hash);
      var e := entries[hash].(message := Some(r));
      UpdateKeeps(entries, keys, nextRef, hash, e);
      entries := entries[hash := e];
      assert entries == entries0[hash := e];
    }

    /** `createTagRef`: a new ref is appended to the commit's tags. */
    method CreateTagRef(hash: string) returns (r: RefId)
      requires Valid()
      modifies this
      ensures Valid()
      ensures r == old(nextRef) && nextRef == old(nextRef) + 1
      ensures entries == old(entries)[hash := EntryOrEmpty(old(entries), hash).(tags := EntryOrEmpty(old(entries), hash).tags + [r])]
      ensures keys == KeysAfterStore(old(keys), old(entries), hash)
    {
      ghost var entries0 := entries;
      r := CreateRef();
      EnsureEntry(hash);
      var e := entries[hash].(tags := entries[hash].tags + [r]);
      TagBelow(entries[hash], r, nextRef);
      UpdateKeeps(entries, keys, nextRef, hash, e);
      entries := entries[hash := e];
      assert entries == entries0[hash := e];
    }

    /**
     * The refs `renderTags` creates for a commit with `count` tags, one
     * `createTagRef` per tag in tag order: they are appended in that order.
     */
    method CreateTagRefs(hash: string, count: nat) returns (rs: seq<RefId>)
      requires Valid()
      modifies this
      ensures Valid()
      ensures rs == RefRange(old(nextRef), count) && nextRef == old(nextRef) + count
      ensures count == 0 ==> entries == old(entries) && keys == old(keys)
      ensures count > 0 ==> entries == TagsAppended(old(entries), hash, rs)
      ensures count > 0 ==> keys == KeysAfterStore(old(keys), old(entries), hash)
    {
      ghost var entries0, keys0, next0 := entries, keys, nextRef;
      rs := [];
      var i := 0;
      while i < count
        invariant 0 <= i <= count
        invariant Valid()
        invariant rs == RefRange(next0, i) && nextRef == next0 + i
        invariant i == 0 ==> entries == entries0 && keys == keys0
        invariant i > 0 ==> entries == TagsAppended(entries0, hash, rs)
        invariant i > 0 ==> keys == KeysAfterStore(keys0, entries0, hash)
      {
        ghost var rsBefore := rs;
        var r := CreateTagRef(hash);
        rs := rs + [r];
        if i > 0 {
          TagsAppendedSnoc(entries0, hash, rsBefore, r);
        } else {
          assert rs == [r];
        }
        i := i + 1;
      }
    }
  }

  /** The registry after `rs` were appended, one by one, to the tags of the entry under `hash`. */
  function TagsAppended(entries: map<string, Entry>, hash: string, rs: seq<RefId>): map<string, Entry> {
    var e := EntryOrEmpty(entries, hash);
    entries[hash := e.(tags := e.tags + rs)]
  }

  /** Appending one more tag ref to what `TagsAppended` gave is appending it with the others. */
  lemma TagsAppendedSnoc(entries: map<string, Entry>, hash: string, rs: seq<RefId>, r: RefId)
    ensures var m := TagsAppended(entries, hash, rs);
            && hash in m
            && TagsAppended(entries, hash, rs + [r]) == m[hash := m[hash].(tags := m[hash].tags + [r])]
  {
    var e := EntryOrEmpty(entries, hash);
    assert e.tags + rs + [r] == e.tags + (rs + [r]);
  }
}
