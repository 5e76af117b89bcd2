/** Reading a published key set. */
module Jwks {
  import opened Wrappers
  import opened JsonValues
  import opened Base64Url
  import opened Scopes
  import opened Text
  import opened Verifiers

  const MAX_KEYS: nat := 64

  predicate IsSigningKey(fields: map<string, Json>) {
    && Get(fields, "kty", JNull) == JString("OKP")
    && Get(fields, "crv", JNull) == JString("Ed25519")
    && Get(fields, "alg", JString("")) in [JString(""), JString("EdDSA")]
    && Get(fields, "use", JString("")) in [JString(""), JString("sig")]
  }

  /** The 32 bytes of a key; the text is read by the lenient decoder. */
  function KeyBytes(x: Json): Option<seq<Byte>> {
    if !x.JString? then None else
    match Decode(x.s)
    case None => None
    case Some(raw) => if |raw| == ED25519_PUBLIC_KEY_SIZE then Some(raw) else None
  }

  datatype Entry = Entry(id: string, raw: seq<Byte>)

  /** The id and raw key of one well-formed element of the list. */
  function ParseKey(key: Json): (parsed: Option<Entry>)
    ensures parsed.Some? ==> ValidKey(parsed.value.id, parsed.value.raw)
  {
    if !key.JObject? || !IsSigningKey(key.fields) then None else
    var keyId := Get(key.fields, "kid", JString(""));
    if !keyId.JString? || !Bounded(keyId.s, MAX_KIND_BYTES, true) then None else
    match KeyBytes(Get(key.fields, "x", JString("")))
    case None => None
    case Some(raw) => Some(Entry(keyId.s, raw))
  }

  /** A member is this text; `absent` says whether leaving it out will do. */
  predicate Says(fields: map<string, Json>, name: string, value: string, absent: bool) {
    if name in fields then fields[name] == JString(value) else absent
  }

  /** Which elements are keys, member by member. The 32 bytes may be spelled in any way the lenient decoder reads. */
  lemma ParsedKeyExactly(key: Json, id: string, raw: seq<Byte>)
    ensures ParseKey(key) == Some(Entry(id, raw)) <==>
            && key.JObject?
            && Says(key.fields, "kty", "OKP", false) && Says(key.fields, "crv", "Ed25519", false)
            && (Says(key.fields, "alg", "", true) || Says(key.fields, "alg", "EdDSA", false))
            && (Says(key.fields, "use", "", true) || Says(key.fields, "use", "sig", false))
            && Says(key.fields, "kid", id, false) && Fits(id, 128)
            && "x" in key.fields && key.fields["x"].JString? && Decode(key.fields["x"].s) == Some(raw) && |raw| == 32
  {
    BoundedExactly(id, 128);
    EmptyFits("");
    EmptyDecodes();
  }

  lemma EmptyDecodes()
    ensures Decode("") == Some([])
  {
    assert "" + Padding(0) == "";
  }

  /** The element that publishes a key. */
  function Published(id: string, raw: seq<Byte>): Json {
    JObject(map["kty" := JString("OKP"), "crv" := JString("Ed25519"),
                "alg" := JString("EdDSA"), "use" := JString("sig"),
                "kid" := JString(id), "x" := JString(Encode(raw))])
  }

  /** Parsing undoes publishing. */
  lemma PublishedParses(id: string, raw: seq<Byte>)
    requires Fits(id, 128) && |raw| == 32
    ensures ParseKey(Published(id, raw)) == Some(Entry(id, raw))
  {
    DecodeEncode(raw);
    ParsedKeyExactly(Published(id, raw), id, raw);
  }

  ghost predicate AllParse(keys: seq<Json>) {
    forall i | 0 <= i < |keys| :: ParseKey(keys[i]).Some?
  }

  ghost function Entries(keys: seq<Json>): (entries: seq<Entry>)
    requires AllParse(keys)
    ensures |entries| == |keys|
    ensures forall i | 0 <= i < |keys| :: ParseKey(keys[i]) == Some(entries[i])
  {
    if keys == [] then []
    else
      assert forall i | 0 <= i < |keys| - 1 :: keys[..|keys| - 1][i] == keys[i];
      Entries(keys[..|keys| - 1]) + [ParseKey(keys[|keys| - 1]).value]
  }

  ghost predicate DistinctIds(entries: seq<Entry>) {
    forall i, j | 0 <= i < j < |entries| :: entries[i].id != entries[j].id
  }

  ghost function Ids(entries: seq<Entry>): set<string> {
    set e | e in entries :: e.id
  }

  /** One to 64 keys with pairwise distinct ids. */
  lemma WellFormedKeySetExactly(keys: seq<Json>)
    ensures WellFormedKeySet(keys) <==>
            && 1 <= |keys| <= 64 && (forall i | 0 <= i < |keys| :: ParseKey(keys[i]).Some?)
            && (forall i, j | 0 <= i < j < |keys| && ParseKey(keys[i]).Some? && ParseKey(keys[j]).Some? ::
                  ParseKey(keys[i]).value.id != ParseKey(keys[j]).value.id)
  {
    if AllParse(keys) {
      var entries := Entries(keys);
      assert forall i | 0 <= i < |keys| :: ParseKey(keys[i]) == Some(entries[i]);
    }
  }

  ghost predicate WellFormedKeySet(keys: seq<Json>) {
    1 <= |keys| <= MAX_KEYS && AllParse(keys) && DistinctIds(Entries(keys))
  }

  /** `m` holds exactly these entries. */
  ghost predicate Holds(m: KeySet, entries: seq<Entry>) {
    m.Keys == Ids(entries) && forall e | e in entries :: m[e.id] == e.raw
  }

  method ParseJwks(document: Option<Json>) returns (result: Option<KeySet>)
    ensures result.Some? <==>
            && document.Some? && document.value.JObject? && Get(document.value.fields, "keys", JNull).JArray?
            && WellFormedKeySet(Get(document.value.fields, "keys", JNull).items)
    ensures result.Some? ==> Holds(result.value, Entries(Get(document.value.fields, "keys", JNull).items))
  {
    if document.None? || !document.value.JObject? {
      return None;
    }
    var keys := Get(document.value.fields, "keys", JNull);
    if !keys.JArray? || !(1 <= |keys.items| <= MAX_KEYS) {
      return None;
    }
    result := ReadKeys(keys.items);
  }

  /** The elements read so far and what they held. */
  ghost predicate ReadSoFar(keys: seq<Json>, entries: seq<Entry>) {
    |entries| <= |keys| && forall k | 0 <= k < |entries| :: ParseKey(keys[k]) == Some(entries[k])
  }

  method ReadKeys(keys: seq<Json>) returns (result: Option<KeySet>)
    ensures result.Some? <==> AllParse(keys) && DistinctIds(Entries(keys))
    ensures result.Some? ==> Holds(result.value, Entries(keys))
  {
    var m: KeySet := map[];
    ghost var entries: seq<Entry> := [];
    for i := 0 to |keys|
      invariant |entries| == i && ReadSoFar(keys, entries)
      invariant Holds(m, entries) && DistinctIds(entries)
    {
      var parsed := ParseKey(keys[i]);
      if parsed.None? {
        assert !AllParse(keys);
        return None;
      }
      var entry := parsed.value;
      if entry.id in m {
        DuplicateIsRefused(keys, entries, entry);
        return None;
      }
      ReadOneMore(keys, entries, entry);
      FreshKeyExtends(m, entries, entry);
      entries := entries + [entry];
      m := m[entry.id := entry.raw];
    }
    EntriesAre(keys, entries);
    return Some(m);
  }

  lemma ReadOneMore(keys: seq<Json>, entries: seq<Entry>, entry: Entry)
    requires ReadSoFar(keys, entries) && |entries| < |keys| && ParseKey(keys[|entries|]) == Some(entry)
    ensures ReadSoFar(keys, entries + [entry])
  {
  }

  lemma EntriesAre(keys: seq<Json>, entries: seq<Entry>)
    requires |entries| == |keys| && ReadSoFar(keys, entries)
    ensures AllParse(keys) && Entries(keys) == entries
  {
    assert AllParse(keys);
    var listed := Entries(keys);
    assert forall k | 0 <= k < |keys| :: Some(listed[k]) == Some(entries[k]);
  }

  lemma DuplicateIsRefused(keys: seq<Json>, entries: seq<Entry>, entry: Entry)
    requires |entries| < |keys| && ParseKey(keys[|entries|]) == Some(entry)
    requires ReadSoFar(keys, entries) && entry.id in Ids(entries)
    ensures !(AllParse(keys) && DistinctIds(Entries(keys)))
  {
    var e :| e in entries && e.id == entry.id;
    var j :| 0 <= j < |entries| && entries[j] == e;
    if AllParse(keys) {
      assert Entries(keys)[j].id == Entries(keys)[|entries|].id;
    }
  }

  lemma FreshKeyExtends(m: KeySet, entries: seq<Entry>, entry: Entry)
    requires Holds(m, entries) && DistinctIds(entries) && entry.id !in m
    ensures Holds(m[entry.id := entry.raw], entries + [entry]) && DistinctIds(entries + [entry])
  {
    IdsGrow(entries, entry);
    FreshIdStaysDistinct(entries, entry);
    forall e | e in entries ensures e.id in m {
      assert e.id in Ids(entries);
    }
  }

  lemma IdsGrow(entries: seq<Entry>, entry: Entry)
    ensures Ids(entries + [entry]) == Ids(entries) + {entry.id}
  {
    assert forall e :: e in entries + [entry] <==> e in entries || e == entry;
  }

  lemma FreshIdStaysDistinct(entries: seq<Entry>, entry: Entry)
    ensures DistinctIds(entries + [entry]) <==> DistinctIds(entries) && entry.id !in Ids(entries)
  {
    var longer := entries + [entry];
    if DistinctIds(longer) {
      forall e | e in entries ensures e.id != entry.id {
        var i :| 0 <= i < |entries| && entries[i] == e;
        assert longer[i].id != longer[|entries|].id;
      }
      assert forall i | 0 <= i < |entries| :: longer[i] == entries[i];
    }
    if DistinctIds(entries) && entry.id !in Ids(entries) {
      assert forall i | 0 <= i < |entries| :: entries[i].id in Ids(entries);
    }
  }

  // ----- What the parser promises -----

  lemma {:induction false} DistinctIffCounted(entries: seq<Entry>)
    ensures |Ids(entries)| <= |entries|
    ensures DistinctIds(entries) <==> |Ids(entries)| == |entries|
  {
    if entries != [] {
      var rest, last := entries[..|entries| - 1], entries[|entries| - 1];
      assert entries == rest + [last];
      DistinctIffCounted(rest);
      IdsGrow(rest, last);
      FreshIdStaysDistinct(rest, last);
    }
  }

  /** The map has one entry per listed key. */
  lemma OneEntryPerKey(keys: seq<Json>, m: KeySet)
    requires WellFormedKeySet(keys) && Holds(m, Entries(keys))
    ensures |m| == |keys|
  {
    DistinctIffCounted(Entries(keys));
    assert |m| == |m.Keys|;
  }

  /** A parsed key set always builds a verifier, under every skew the constructor admits. */
  lemma ParsedKeySetBuilds(keys: seq<Json>, m: KeySet, clockSkew: real)
    requires WellFormedKeySet(keys) && Holds(m, Entries(keys)) && ValidSkew(clockSkew)
    ensures Buildable(m, clockSkew)
  {
    var entries := Entries(keys);
    assert entries[0].id in Ids(entries);
    forall id | id in m ensures ValidKey(id, m[id]) {
      var e :| e in entries && e.id == id;
      var i :| 0 <= i < |entries| && entries[i] == e;
      assert ParseKey(keys[i]) == Some(e);
    }
  }

  lemma SameMembers(a: seq<Json>, b: seq<Json>)
    requires multiset(a) == multiset(b)
    ensures |a| == |b| && forall k :: k in a <==> k in b
  {
    assert |multiset(a)| == |a| && |multiset(b)| == |b|;
    assert forall k :: k in a <==> k in multiset(a);
    assert forall k :: k in b <==> k in multiset(b);
  }

  lemma EntryIsListed(a: seq<Json>, b: seq<Json>, e: Entry)
    requires AllParse(a) && AllParse(b) && e in Entries(a)
    requires forall k :: k in a ==> k in b
    ensures e in Entries(b)
  {
    var i :| 0 <= i < |a| && Entries(a)[i] == e;
    assert a[i] in b;
    var j :| 0 <= j < |b| && b[j] == a[i];
    assert Entries(b)[j] == e;
  }

  lemma SameEntries(a: seq<Json>, b: seq<Json>)
    requires multiset(a) == multiset(b) && AllParse(a)
    ensures AllParse(b) && forall e :: e in Entries(a) <==> e in Entries(b)
  {
    SameMembers(a, b);
    forall j | 0 <= j < |b| ensures ParseKey(b[j]).Some? {
      assert b[j] in a;
    }
    forall e ensures e in Entries(a) <==> e in Entries(b) {
      if e in Entries(a) { EntryIsListed(a, b, e); }
      if e in Entries(b) { EntryIsListed(b, a, e); }
    }
  }

  /** Listing the keys in another order does not change whether they are accepted. */
  lemma AcceptanceIgnoresOrder(a: seq<Json>, b: seq<Json>)
    requires multiset(a) == multiset(b) && WellFormedKeySet(a)
    ensures WellFormedKeySet(b)
  {
    SameMembers(a, b);
    SameEntries(a, b);
    assert Ids(Entries(a)) == Ids(Entries(b));
    DistinctIffCounted(Entries(a));
    DistinctIffCounted(Entries(b));
  }

  /** Nor does it change the resulting map. */
  lemma MapIgnoresOrder(a: seq<Json>, m: KeySet, b: seq<Json>, n: KeySet)
    requires multiset(a) == multiset(b) && AllParse(a) && Holds(m, Entries(a))
    requires AllParse(b) && Holds(n, Entries(b))
    ensures m == n
  {
    SameEntries(a, b);
    SameEntriesSameMap(Entries(a), m, Entries(b), n);
  }

  lemma SameEntriesSameMap(a: seq<Entry>, m: KeySet, b: seq<Entry>, n: KeySet)
    requires Holds(m, a) && Holds(n, b)
    requires forall e :: e in a <==> e in b
    ensures m == n
  {
    assert Ids(a) == Ids(b);
    forall id | id in m ensures m[id] == n[id] {
      var e :| e in a && e.id == id;
    }
  }
}
