/** Typed values under names in namespaces, kept as blobs in the key-value store. */
module Preferences {
  import opened EasyFlash
  import opened Octets
  import opened Wrappers

  const VALUE_HEADER := 5
  const MAX_LEN := 0xff_ffff

  // Types of values: I8, U8, I16, U16, I32, U32, I64, U64, STR, BLOB.
  type PreferenceType = t: int | 0 <= t < 10

  datatype Value = Value(ty: Octet, payload: seq<Octet>)

  // ---- Blobs ----

  function Blob(v: Value): seq<Octet>
    requires |v.payload| < WORD
  {
    [v.ty] + ToLE32(|v.payload|) + v.payload
  }

  /** What a blob holds, if its length says the same as its size. */
  function Decode(blob: seq<Octet>): Option<Value> {
    if |blob| < VALUE_HEADER || |blob| != VALUE_HEADER + LE32(blob, 1) then None
    else Some(Value(blob[0], blob[5..]))
  }

  lemma BlobRoundTrip(v: Value)
    requires |v.payload| < WORD
    ensures Decode(Blob(v)) == Some(v)
  {
    var b, n := Blob(v), ToLE32(|v.payload|);
    assert b[1] == n[0] && b[2] == n[1] && b[3] == n[2] && b[4] == n[3];
    assert b[5..] == v.payload;
  }

  // ---- Names ----

  function FullKey(ns: Key, key: Key): Key { ns + [SLASH] + key }

  lemma FullKeyInjective(ns: Key, a: Key, b: Key)
    requires FullKey(ns, a) == FullKey(ns, b)
    ensures a == b
  {
    assert FullKey(ns, a)[|ns| + 1..] == a && FullKey(ns, b)[|ns| + 1..] == b;
  }

  /** Starts with the namespace and a slash. */
  predicate NsMatch(ns: Key, key: Key) { |ns| < |key| && key[..|ns|] == ns && key[|ns|] == SLASH }

  lemma OwnKeysMatch(ns: Key, key: Key)
    ensures NsMatch(ns, FullKey(ns, key))
  {
    assert FullKey(ns, key)[..|ns|] == ns;
  }

  /** In general, a namespace also matches keys of those that go on, behind it, with a slash,
      and of one that it goes on from itself, those names that repeat what it goes on with. */
  lemma MatchesInGeneral(ns: Key, other: Key, key: Key)
    ensures NsMatch(ns, FullKey(other, key)) <==>
              || ns == other
              || NsMatch(ns, other)
              || (NsMatch(other, ns) && NsMatch(ns[|other| + 1..], key))
  {
    var full, n, m := FullKey(other, key), |ns|, |other|;
    assert full[..m] == other && full[m] == SLASH && full[m + 1..] == key;
    if n < m {
      assert full[..n] == other[..n] && full[n] == other[n];
    } else if n == m {
      assert full[..n] == other;
    } else {
      MatchesBeyond(ns, other, key);
    }
  }

  lemma MatchesBeyond(ns: Key, other: Key, key: Key)
    requires |ns| > |other|
    ensures NsMatch(ns, FullKey(other, key)) <==> NsMatch(other, ns) && NsMatch(ns[|other| + 1..], key)
  {
    var full, n, m := FullKey(other, key), |ns|, |other|;
    assert full[..m] == other && full[m] == SLASH && full[m + 1..] == key;
    var rest := ns[m + 1..];
    if NsMatch(ns, full) {
      assert ns[..m] == full[..n][..m] == other && ns[m] == full[..n][m] == SLASH;
      assert rest == full[..n][m + 1..] == key[..|rest|];
      assert key[|rest|] == full[n];
    }
    if NsMatch(other, ns) && NsMatch(rest, key) {
      assert ns == other + [SLASH] + rest;
      assert full[..n] == other + [SLASH] + key[..|rest|];
      assert full[n] == key[|rest|];
    }
  }

  /** Neither namespace is the other or goes on, behind a slash, from the other. */
  predicate Apart(ns: Key, other: Key) { ns != other && !NsMatch(ns, other) && !NsMatch(other, ns) }

  /** A namespace leaves every key of another one alone exactly if the two are apart. */
  lemma ApartIsExact(ns: Key, other: Key)
    ensures (forall key :: !NsMatch(ns, FullKey(other, key))) <==> Apart(ns, other)
  {
    forall key ensures Apart(ns, other) ==> !NsMatch(ns, FullKey(other, key)) {
      MatchesInGeneral(ns, other, key);
    }
    if !Apart(ns, other) {
      var key := if NsMatch(other, ns) then ns[|other| + 1..] + [SLASH] else [];
      MatchesInGeneral(ns, other, key);
      if NsMatch(other, ns) { assert key[..|key| - 1] == ns[|other| + 1..]; }
      assert NsMatch(ns, FullKey(other, key));
    }
  }

  /** Namespaces without a slash are apart if they differ. */
  lemma SlashlessAreApart(ns: Key, other: Key)
    requires SLASH !in ns && SLASH !in other
    ensures Apart(ns, other) <==> ns != other
  {
  }

  /** A namespace named a/b is cleared together with the namespace a, and takes the names b/... of
      that one along when it is cleared itself. */
  lemma SlashedNamespaces(key: Key)
    ensures
      var a, ab: Key := [0x61], [0x61, SLASH, 0x62];
      NsMatch(a, FullKey(ab, key)) && NsMatch(ab, FullKey(a, [0x62, SLASH] + key))
  {
    var a, ab: Key := [0x61], [0x61, SLASH, 0x62];
    MatchesInGeneral(a, ab, key);
    MatchesInGeneral(ab, a, [0x62, SLASH] + key);
  }

  /** With its slash, a full key is never one of the names that are not files. */
  lemma FullKeyIsFile(ns: Key, key: Key)
    ensures IsFileName(Escape(FullKey(ns, key))) && !NamesDirectory(FullKey(ns, key))
  {
    assert SLASH in FullKey(ns, key);
    SlashEscapes(FullKey(ns, key));
  }

  lemma MatchIsFile(ns: Key, key: Key)
    requires NsMatch(ns, key)
    ensures IsFileName(Escape(key)) && !NamesDirectory(key)
  {
    assert SLASH in key;
    SlashEscapes(key);
  }

  lemma {:induction false} SlashEscapes(key: Key)
    requires SLASH in key
    ensures BRACE in Escape(key)
  {
    if key[0] != SLASH { SlashEscapes(key[1..]); }
  }

  // ---- The store ----

  class Prefs {
    const store: Store
    var ns: Key
    var readOnly: bool

    ghost predicate Valid()
      reads this, store
    {
      store.Valid()
    }

    constructor (store: Store)
      requires store.Valid()
      ensures Valid() && this.store == store && ns == []
    {
      this.store, ns, readOnly := store, [], false;
    }

    /** The value of a name of the open namespace. */
    ghost function Entry(key: Key): Option<Value>
      reads this, store
    {
      EntryOf(ns, key)
    }

    ghost function EntryOf(space: Key, key: Key): Option<Value>
      reads this, store
    {
      var blob := store.Get(FullKey(space, key));
      if blob.None? then None else Decode(blob.value)
    }

    method Begin(name: Key, readOnly: bool) returns (ok: bool)
      modifies this
      ensures ok <==> 0 < |name| <= 15
      ensures if ok then ns == name && this.readOnly == readOnly else unchanged(this)
    {
      if name == [] || |name| > 15 {
        return false;
      }
      ns, this.readOnly := name, readOnly;
      return true;
    }

    method PutValue(key: Key, ty: PreferenceType, value: seq<Octet>) returns (n: nat)
      requires Valid()
      modifies store`files, store.pathBuffer
      ensures Valid()
      ensures
        var full := FullKey(ns, key);
        var ok := !readOnly && ns != [] && |value| <= MAX_LEN && |full| < NAME_MAX && Fits(full) && store.present;
        && n == (if ok then |value| else 0)
        && (ok ==> Entry(key) == Some(Value(ty, value)))
        && (!ok ==> store.files == old(store.files))
      ensures forall k :: k != FullKey(ns, key) ==> store.Get(k) == old(store.Get(k))
      ensures forall other :: other != key ==> Entry(other) == old(Entry(other))
    {
      hide Escape, Unescape, Decode, ToLE32;
      forall other | other != key ensures FullKey(ns, other) != FullKey(ns, key) {
        if FullKey(ns, other) == FullKey(ns, key) { FullKeyInjective(ns, other, key); }
      }
      if readOnly || ns == [] || |value| > MAX_LEN {
        return 0;
      }
      var full := FullKey(ns, key);
      if |full| >= NAME_MAX {
        return 0;
      }
      var blob := Blob(Value(ty, value));
      BlobRoundTrip(Value(ty, value));
      FullKeyIsFile(ns, key);
      var rc := store.SetEnvBlob(full, blob);
      n := if rc == NoErr then |value| else 0;
    }

    /** The whole blob of a key. */
    method ReadBlob(key: Key) returns (blob: Option<seq<Octet>>)
      requires Valid()
      modifies store.pathBuffer
      ensures
        var v := store.Get(key);
        blob == if v.Some? && |v.value| >= VALUE_HEADER then v else None
    {
      hide Escape, Unescape;
      ghost var v := store.Get(key);
      if v.Some? { assert Window(v.value, 0, |v.value|) == v.value; }
      var _, saved := store.GetEnvBlob(key, 0, 0);
      if saved < VALUE_HEADER {
        return None;
      }
      var data, saved' := store.GetEnvBlob(key, saved, 0);
      if |data| == 0 || saved' < VALUE_HEADER {
        return None;
      }
      blob := Some(data);
    }

    /** Reads a value that must have a given type and size; otherwise the caller's default stands. */
    method GetValue(key: Key, ty: PreferenceType, len: nat, default: seq<Octet>) returns (value: seq<Octet>)
      requires Valid()
      modifies store.pathBuffer
      ensures
        value == if ns != [] && Entry(key).Some? && Entry(key).value.ty == ty && |Entry(key).value.payload| == len
                 then Entry(key).value.payload else default
    {
      hide Escape, Unescape, LE32;
      if ns == [] {
        return default;
      }
      var blob := ReadBlob(FullKey(ns, key));
      if blob.None? || blob.value[0] != ty {
        return default;
      }
      var payload := LE32(blob.value, 1);
      if payload != len || |blob.value| != VALUE_HEADER + payload {
        return default;
      }
      value := blob.value[VALUE_HEADER..];
    }

    /** The type of a name's value, whatever the blob's length field says. */
    method GetType(key: Key) returns (ty: Option<PreferenceType>)
      requires Valid()
      modifies store.pathBuffer
      ensures ns != [] && Entry(key).Some? && Entry(key).value.ty < 10 ==> ty == Some(Entry(key).value.ty)
      ensures
        var blob := store.Get(FullKey(ns, key));
        if ns != [] && blob.Some? && |blob.value| >= VALUE_HEADER && blob.value[0] < 10
        then ty == Some(blob.value[0]) else ty == None
    {
      hide Escape, Unescape, LE32;
      if ns == [] {
        return None;
      }
      var blob := ReadBlob(FullKey(ns, key));
      if blob.None? || blob.value[0] >= 10 {
        return None;
      }
      ty := Some(blob.value[0]);
    }

    method Remove(key: Key) returns (ok: bool)
      requires Valid()
      modifies store`files, store`present, store.pathBuffer
      ensures Valid() && store.present == old(store.present) && ok == (ns != [] && Fits(FullKey(ns, key)))
      ensures ns != [] ==> Entry(key) == None
      ensures forall k :: ns == [] || k != FullKey(ns, key) ==> store.Get(k) == old(store.Get(k))
    {
      hide Escape, Unescape;
      if ns == [] {
        return false;
      }
      FullKeyIsFile(ns, key);
      var rc := store.DelEnv(FullKey(ns, key));
      ok := rc == NoErr;
    }

    /** Collects the keys of the namespace, then deletes them. */
    method Clear() returns (ok: bool)
      requires Valid()
      modifies store`files, store`present, store.pathBuffer
      ensures Valid() && store.present == old(store.present) && ok == (ns != [])
      ensures forall k :: store.Get(k) == if ns != [] && NsMatch(ns, k) then None else old(store.Get(k))
      ensures ok ==> forall key :: Entry(key) == None
      ensures ok ==> forall other, key :: !NsMatch(ns, FullKey(other, key)) ==>
                EntryOf(other, key) == old(EntryOf(other, key))
      ensures forall other, key :: Apart(ns, other) ==> EntryOf(other, key) == old(EntryOf(other, key))
    {
      hide Escape, Unescape, Decode, NsMatch;
      if ns == [] {
        return false;
      }
      var keys := store.Keys();
      var found := [];
      for i := 0 to |keys|
        invariant forall k :: k in found <==> k in keys[..i] && NsMatch(ns, k)
      {
        if NsMatch(ns, keys[i]) {
          found := found + [keys[i]];
        }
      }
      assert keys[..|keys|] == keys;
      for i := 0 to |found|
        invariant Valid() && store.present == old(store.present)
        invariant forall k :: store.Get(k) == if k in found[..i] then None else old(store.Get(k))
      {
        MatchIsFile(ns, found[i]);
        var _ := store.DelEnv(found[i]);
        assert forall k :: k in found[..i + 1] <==> k in found[..i] || k == found[i];
      }
      assert found[..|found|] == found;
      forall key ensures NsMatch(ns, FullKey(ns, key)) { OwnKeysMatch(ns, key); }
      forall other, key | Apart(ns, other) ensures !NsMatch(ns, FullKey(other, key)) {
        MatchesInGeneral(ns, other, key);
      }
      return true;
    }
  }
}
