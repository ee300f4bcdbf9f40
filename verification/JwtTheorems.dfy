/** What a loaded key set means, and what it does not depend on. */
module JwtTheorems {
  import opened Prelude
  import opened Text
  import opened Jwt
  import opened Plain

  lemma {:induction false} StringsMembers(items: seq<Value>, s: string)
    ensures s in Strings(items) <==> String(s) in items
  {
    if items == [] {
    } else {
      var n := |items| - 1;
      StringsMembers(items[..n], s);
      assert items == items[..n] + [items[n]];
    }
  }

  // ---------- loader ----------

  function KidOf(raw: Value): Option<string> {
    raw.GetStr("kid")
  }

  function KeyOf(lib: Library, raw: Value): Option<SigningKey> {
    match lib.decodingKey(WithoutMetadata(raw))
    case None => None
    case Some(key) => Some(SigningKey(key, MetaOf(raw)))
  }

  /** A key the filtered loader keeps under kid. */
  predicate Usable(lib: Library, raw: Value, kid: string) {
    raw.Object? && KidOf(raw) == Some(kid) && !Ignored(MetaOf(raw)) && KeyOf(lib, raw).Some?
  }

  ghost predicate DistinctKids(raws: seq<Value>) {
    forall i, j | 0 <= i < j < |raws| :: KidOf(raws[i]).Some? ==> KidOf(raws[i]) != KidOf(raws[j])
  }

  ghost predicate AllObjects(raws: seq<Value>) {
    forall raw | raw in raws :: raw.Object?
  }

  /** Exactly the usable keys of raws, each under its kid. */
  ghost predicate KeysOf(lib: Library, raws: seq<Value>, keys: map<string, SigningKey>) {
    && (forall kid | kid in keys :: exists raw | raw in raws :: Usable(lib, raw, kid))
    && (forall raw, kid | raw in raws && Usable(lib, raw, kid) :: kid in keys && Some(keys[kid]) == KeyOf(lib, raw))
  }

  ghost predicate KidsSeen(raws: seq<Value>, seen: set<string>) {
    forall kid :: kid in seen <==> exists raw | raw in raws :: KidOf(raw) == Some(kid)
  }

  lemma {:induction false} LoadKeysMeaning(lib: Library, raws: seq<Value>)
    ensures LoadKeys(lib, raws).Some? <==> AllObjects(raws) && DistinctKids(raws)
    ensures LoadKeys(lib, raws).Some? ==>
              && KidsSeen(raws, LoadKeys(lib, raws).value.seen)
              && KeysOf(lib, raws, LoadKeys(lib, raws).value.keys)
  {
    if raws == [] {
    } else {
      var n := |raws| - 1;
      var front, raw := raws[..n], raws[n];
      assert raws == front + [raw];
      LoadKeysMeaning(lib, front);
      DistinctExtend(front, raw);
      if LoadKeys(lib, front).Some? && LoadKey(lib, LoadKeys(lib, front).value, raw).Some? {
        var before := LoadKeys(lib, front).value;
        LoadKeySeen(lib, front, raw, before);
        LoadKeyKeeps(lib, front, raw, before);
      }
    }
  }

  lemma DistinctExtend(front: seq<Value>, raw: Value)
    ensures DistinctKids(front + [raw])
       <==> DistinctKids(front) && (KidOf(raw).Some? ==> forall r | r in front :: KidOf(r) != KidOf(raw))
  {
    var raws := front + [raw];
    if DistinctKids(raws) {
      assert forall i | 0 <= i < |front| :: raws[i] == front[i];
      if KidOf(raw).Some? {
        forall r | r in front ensures KidOf(r) != KidOf(raw) {
          var i :| 0 <= i < |front| && front[i] == r;
          assert raws[i] == r && raws[|front|] == raw;
        }
      }
    }
  }

  lemma LoadKeySeen(lib: Library, front: seq<Value>, raw: Value, before: Loaded)
    requires KidsSeen(front, before.seen) && LoadKey(lib, before, raw).Some?
    ensures KidsSeen(front + [raw], LoadKey(lib, before, raw).value.seen)
  {
    var raws := front + [raw];
    var after := LoadKey(lib, before, raw).value.seen;
    forall kid ensures kid in after <==> exists r | r in raws :: KidOf(r) == Some(kid) {
      if kid in before.seen {
        var r :| r in front && KidOf(r) == Some(kid);
        assert r in raws;
      } else if KidOf(raw) == Some(kid) {
        assert raw in raws;
      }
    }
  }

  lemma KeysOfSkip(lib: Library, front: seq<Value>, raw: Value, keys: map<string, SigningKey>)
    requires KeysOf(lib, front, keys)
    requires forall kid :: !Usable(lib, raw, kid)
    ensures KeysOf(lib, front + [raw], keys)
  {
    var raws := front + [raw];
    forall kid | kid in keys ensures exists r | r in raws :: Usable(lib, r, kid) {
      var r :| r in front && Usable(lib, r, kid);
      assert r in raws;
    }
    assert forall r | r in raws :: r in front || r == raw;
  }

  lemma KeysOfAdd(lib: Library, front: seq<Value>, raw: Value, keys: map<string, SigningKey>, kid: string)
    requires KeysOf(lib, front, keys)
    requires Usable(lib, raw, kid) && forall r | r in front :: KidOf(r) != Some(kid)
    ensures KeysOf(lib, front + [raw], keys[kid := KeyOf(lib, raw).value])
  {
    var raws := front + [raw];
    var after := keys[kid := KeyOf(lib, raw).value];
    assert raw in raws;
    forall k | k in after ensures exists r | r in raws :: Usable(lib, r, k) {
      if k != kid {
        var r :| r in front && Usable(lib, r, k);
        assert r in raws;
      }
    }
    forall r, k | r in raws && Usable(lib, r, k) ensures k in after && Some(after[k]) == KeyOf(lib, r) {
      if r in front {
        assert k != kid && k in keys;
      }
    }
  }

  lemma LoadKeyKeeps(lib: Library, front: seq<Value>, raw: Value, before: Loaded)
    requires KidsSeen(front, before.seen) && KeysOf(lib, front, before.keys) && LoadKey(lib, before, raw).Some?
    ensures KeysOf(lib, front + [raw], LoadKey(lib, before, raw).value.keys)
  {
    if KidOf(raw).Some? && Usable(lib, raw, KidOf(raw).value) {
      KeysOfAdd(lib, front, raw, before.keys, KidOf(raw).value);
    } else {
      KeysOfSkip(lib, front, raw, before.keys);
    }
  }

  ghost predicate HasUsable(lib: Library, raws: seq<Value>) {
    exists raw, kid :: raw in raws && Usable(lib, raw, kid)
  }

  lemma KeysNonEmpty(lib: Library, raws: seq<Value>, keys: map<string, SigningKey>)
    requires KeysOf(lib, raws, keys)
    ensures keys != map[] <==> HasUsable(lib, raws)
  {
    if keys != map[] {
      var kid :| kid in keys;
      assert exists raw | raw in raws :: Usable(lib, raw, kid);
    }
  }

  /** When a JWKS loads: distinct kids among all keys, the ignored ones included, and one usable key. */
  lemma LoadSucceeds(lib: Library, policy: JwtPolicy, json: string)
    ensures Load(lib, policy, json).Ok? <==>
              && PolicyUsable(policy)
              && KeysArray(lib, json).Some?
              && var raws := KeysArray(lib, json).value;
              && AllObjects(raws) && DistinctKids(raws) && HasUsable(lib, raws)
    ensures Load(lib, policy, json).Ok? ==>
              && Load(lib, policy, json).value.policy == policy
              && KeysOf(lib, KeysArray(lib, json).value, Load(lib, policy, json).value.keys)
  {
    if KeysArray(lib, json).Some? {
      var raws := KeysArray(lib, json).value;
      LoadKeysMeaning(lib, raws);
      if LoadKeys(lib, raws).Some? {
        KeysNonEmpty(lib, raws, LoadKeys(lib, raws).value.keys);
      }
    }
  }

  // ---------- the loaded keys, in the fields of the document ----------

  /** The document is an object whose `keys` is an array, not empty. */
  predicate IsJwks(lib: Library, json: string, raws: seq<Value>) {
    lib.parseJson(json).Some? && Has(lib.parseJson(json).value, "keys", Array(raws)) && raws != []
  }

  /** No two keys have the same kid, the ignored ones included. */
  ghost predicate NoKidTwice(raws: seq<Value>) {
    forall i, j, kid | 0 <= i < j < |raws| && Has(raws[i], "kid", String(kid)) :: !Has(raws[j], "kid", String(kid))
  }

  /** Some entry of key_ops is a string, and none is "verify". */
  ghost predicate OnlyOtherOperations(raw: Value) {
    exists items :: Has(raw, "key_ops", Array(items)) && String("verify") !in items && exists s :: String(s) in items
  }

  /** Not for another use, not without verification, and not for an algorithm that is none for signatures. */
  ghost predicate ForSignatures(raw: Value) {
    && (forall s | Has(raw, "use", String(s)) :: s == "sig")
    && !OnlyOtherOperations(raw)
    && (forall s | Has(raw, "alg", String(s)) :: exists alg :: NamesAlgorithm(s, alg))
  }

  /** The JWK parser sees the key without the metadata that is checked here. */
  predicate DecodesTo(lib: Library, raw: Value, key: DecodingKey) {
    raw.Object? && lib.decodingKey(Object(raw.fields - {"alg", "use", "key_ops"})) == Some(key)
  }

  /** The string under a name of the key, or none. */
  ghost predicate Records(raw: Value, name: string, value: Option<string>) {
    match value
    case Some(s) => Has(raw, name, String(s))
    case None => LacksString(raw, name)
  }

  ghost predicate RecordsMeta(raw: Value, meta: JwkMeta) {
    && Records(raw, "alg", meta.alg) && Records(raw, "use", meta.use) && Records(raw, "crv", meta.crv)
    && (Has(raw, "kty", String(meta.kty)) || (LacksString(raw, "kty") && meta.kty == ""))
    && forall s :: s in meta.keyOps <==> exists items :: Has(raw, "key_ops", Array(items)) && String(s) in items
  }

  /** One of raws is this key under this kid. */
  ghost predicate HoldsKey(lib: Library, raws: seq<Value>, kid: string, key: SigningKey) {
    exists raw | raw in raws ::
      Has(raw, "kid", String(kid)) && ForSignatures(raw) && DecodesTo(lib, raw, key.key) && RecordsMeta(raw, key.meta)
  }

  lemma OperationsOf(raw: Value)
    ensures forall s ::
              s in MetaOf(raw).keyOps <==> exists items :: Has(raw, "key_ops", Array(items)) && String(s) in items
  {
    match raw.Get("key_ops")
    case Some(Array(items)) =>
      forall s: string {
        StringsMembers(items, s);
      }
    case _ =>
  }

  lemma MetaIs(raw: Value)
    ensures RecordsMeta(raw, MetaOf(raw))
  {
    OperationsOf(raw);
    GetStrIs(raw, "alg");
    GetStrIs(raw, "use");
    GetStrIs(raw, "kty");
    GetStrIs(raw, "crv");
    hide Has, LacksString;
  }

  lemma ForSignaturesIs(raw: Value)
    ensures ForSignatures(raw) <==> !Ignored(MetaOf(raw))
  {
    OperationsOf(raw);
    GetStrIs(raw, "alg");
    GetStrIs(raw, "use");
    OtherOperationsIs(raw);
    if MetaOf(raw).alg.Some? {
      SignatureName(MetaOf(raw).alg.value);
    }
    hide OnlyOtherOperations, Has, NamesAlgorithm;
  }

  lemma OtherOperationsIs(raw: Value)
    ensures OnlyOtherOperations(raw) <==> MetaOf(raw).keyOps != [] && "verify" !in MetaOf(raw).keyOps
  {
    OperationsOf(raw);
    var ops := MetaOf(raw).keyOps;
    if ops != [] {
      assert ops[0] in ops;
    }
  }

  lemma SignatureName(name: string)
    ensures ParseAlgorithmName(name).Some? <==> exists alg :: NamesAlgorithm(name, alg)
  {
    forall alg: Algorithm {
      NamesAlgorithmIs(name, alg);
    }
    hide NamesAlgorithm, ParseAlgorithmName;
    if ParseAlgorithmName(name).Some? {
      assert NamesAlgorithm(name, ParseAlgorithmName(name).value);
    }
  }

  lemma KeyIs(lib: Library, raw: Value, kid: string)
    ensures Usable(lib, raw, kid) <==>
              Has(raw, "kid", String(kid)) && ForSignatures(raw) && exists key :: DecodesTo(lib, raw, key)
    ensures Usable(lib, raw, kid) ==>
              && KeyOf(lib, raw).Some?
              && var key := KeyOf(lib, raw).value; DecodesTo(lib, raw, key.key) && RecordsMeta(raw, key.meta)
  {
    GetStrIs(raw, "kid");
    ForSignaturesIs(raw);
    MetaIs(raw);
    hide ForSignatures, RecordsMeta, MetaOf, Ignored;
    if raw.Object? && lib.decodingKey(WithoutMetadata(raw)).Some? {
      assert DecodesTo(lib, raw, lib.decodingKey(WithoutMetadata(raw)).value);
    }
  }

  lemma NoKidTwiceIs(raws: seq<Value>)
    ensures NoKidTwice(raws) <==> DistinctKids(raws)
  {
    forall i | 0 <= i < |raws| ensures forall kid :: Has(raws[i], "kid", String(kid)) <==> KidOf(raws[i]) == Some(kid) {
      GetStrIs(raws[i], "kid");
    }
    hide Has;
    if !DistinctKids(raws) {
      var i, j :| 0 <= i < j < |raws| && KidOf(raws[i]).Some? && KidOf(raws[i]) == KidOf(raws[j]);
      assert Has(raws[i], "kid", String(KidOf(raws[i]).value)) && Has(raws[j], "kid", String(KidOf(raws[i]).value));
    }
  }

  /**
   When a JWKS loads, in the fields of policy and document: audiences, issuer
   and no empty allow-list; an array of objects without a repeated kid; and a
   key that verifies signatures and decodes.
   */
  lemma LoadsExactly(lib: Library, policy: JwtPolicy, json: string)
    ensures Load(lib, policy, json).Ok? <==>
              && policy.trustedAudiences != [] && policy.trustedIssuer != "" && policy.allowedAlgorithms != Some([])
              && exists raws: seq<Value> ::
                   && IsJwks(lib, json, raws) && (forall raw | raw in raws :: raw.Object?) && NoKidTwice(raws)
                   && exists kid, key :: HoldsKey(lib, raws, kid, key)
  {
    LoadSucceeds(lib, policy, json);
    JwksIs(lib, json);
    hide Load, KeysArray, NoKidTwice, HasUsable;
    forall raws: seq<Value>
      ensures NoKidTwice(raws) <==> DistinctKids(raws)
      ensures HasUsable(lib, raws) <==> exists kid, key :: HoldsKey(lib, raws, kid, key)
    {
      NoKidTwiceIs(raws);
      SomeKeyIs(lib, raws);
    }
  }

  lemma JwksIs(lib: Library, json: string)
    ensures forall raws :: IsJwks(lib, json, raws) <==> KeysArray(lib, json) == Some(raws)
  {
  }

  lemma SomeKeyIs(lib: Library, raws: seq<Value>)
    ensures HasUsable(lib, raws) <==> exists kid, key :: HoldsKey(lib, raws, kid, key)
  {
    hide ForSignatures, DecodesTo, RecordsMeta, Usable, KeyOf, Has;
    if HasUsable(lib, raws) {
      var raw, kid :| raw in raws && Usable(lib, raw, kid);
      KeyIs(lib, raw, kid);
      assert HoldsKey(lib, raws, kid, KeyOf(lib, raw).value);
    }
    if exists kid, key :: HoldsKey(lib, raws, kid, key) {
      var kid, key :| HoldsKey(lib, raws, kid, key);
      var raw :| raw in raws && Has(raw, "kid", String(kid)) && ForSignatures(raw) && DecodesTo(lib, raw, key.key);
      KeyIs(lib, raw, kid);
    }
  }

  /** The keys of a loaded verifier are those of the document, each under its kid, and the policy is the one given. */
  lemma LoadedKeys(lib: Library, policy: JwtPolicy, json: string, raws: seq<Value>)
    requires Load(lib, policy, json).Ok? && IsJwks(lib, json, raws)
    ensures var verifier := Load(lib, policy, json).value;
            && verifier.policy == policy
            && (forall kid | kid in verifier.keys :: HoldsKey(lib, raws, kid, verifier.keys[kid]))
            && (forall kid, key | HoldsKey(lib, raws, kid, key) ::
                  kid in verifier.keys && verifier.keys[kid].key == key.key)
  {
    LoadSucceeds(lib, policy, json);
    JwksIs(lib, json);
    hide Load, KeysArray, ForSignatures, DecodesTo, RecordsMeta, Usable, KeyOf, Has;
    var keys := Load(lib, policy, json).value.keys;
    forall kid | kid in keys ensures HoldsKey(lib, raws, kid, keys[kid]) {
      var raw :| raw in raws && Usable(lib, raw, kid);
      KeyIs(lib, raw, kid);
    }
    forall kid, key | HoldsKey(lib, raws, kid, key) ensures kid in keys && keys[kid].key == key.key {
      var raw :| raw in raws && Has(raw, "kid", String(kid)) && ForSignatures(raw) && DecodesTo(lib, raw, key.key);
      KeyIs(lib, raw, kid);
      OneKey(lib, raw, keys[kid].key, key.key);
    }
  }

  lemma OneKey(lib: Library, raw: Value, a: DecodingKey, b: DecodingKey)
    requires DecodesTo(lib, raw, a) && DecodesTo(lib, raw, b)
    ensures a == b
  {
  }

  // ---------- key order ----------

  lemma TwiceInMultiset<T>(s: seq<T>, i: nat, j: nat)
    requires i < j < |s| && s[i] == s[j]
    ensures multiset(s)[s[i]] >= 2
  {
    assert s == s[..j] + [s[j]] + s[j + 1..];
    assert s[i] == s[..j][i];
    assert s[i] in multiset(s[..j]);
  }

  lemma TwiceInSeq<T>(s: seq<T>, x: T) returns (i: nat, j: nat)
    requires multiset(s)[x] >= 2
    ensures i < j < |s| && s[i] == s[j] == x
  {
    assert x in multiset(s);
    var k :| 0 <= k < |s| && s[k] == x;
    var front, back := s[..k], s[k + 1..];
    assert s == front + [x] + back;
    if x in multiset(front) {
      i :| 0 <= i < |front| && front[i] == x;
      j := k;
    } else {
      assert x in multiset(back);
      var l :| 0 <= l < |back| && back[l] == x;
      i, j := k, k + 1 + l;
    }
  }

  lemma PermutedDuplicates(a: seq<Value>, b: seq<Value>)
    requires multiset(a) == multiset(b) && !DistinctKids(b)
    ensures !DistinctKids(a)
  {
    var i, j :| 0 <= i < j < |b| && KidOf(b[i]).Some? && KidOf(b[i]) == KidOf(b[j]);
    var k: nat, l: nat;
    if b[i] == b[j] {
      TwiceInMultiset(b, i, j);
      k, l := TwiceInSeq(a, b[i]);
    } else {
      assert b[i] in multiset(a) && b[j] in multiset(a);
      k :| k < |a| && a[k] == b[i];
      l :| l < |a| && a[l] == b[j];
    }
    if k < l {
      assert KidOf(a[k]) == KidOf(a[l]);
    } else {
      assert KidOf(a[l]) == KidOf(a[k]);
    }
  }

  ghost predicate Within<K, V>(a: map<K, V>, b: map<K, V>) {
    forall k | k in a :: k in b && b[k] == a[k]
  }

  lemma WithinBoth<K, V>(a: map<K, V>, b: map<K, V>)
    requires Within(a, b) && Within(b, a)
    ensures a == b
  {
  }

  lemma KeysIncluded(lib: Library, a: seq<Value>, b: seq<Value>,
                     keys: map<string, SigningKey>, keys': map<string, SigningKey>)
    requires KeysOf(lib, a, keys) && KeysOf(lib, b, keys')
    requires forall raw | raw in a :: raw in b
    ensures Within(keys, keys')
  {
    forall kid | kid in keys ensures kid in keys' && keys'[kid] == keys[kid] {
      var raw :| raw in a && Usable(lib, raw, kid);
      assert Some(keys[kid]) == KeyOf(lib, raw);
    }
  }

  lemma KeysOfUnique(lib: Library, a: seq<Value>, b: seq<Value>,
                     keys: map<string, SigningKey>, keys': map<string, SigningKey>)
    requires KeysOf(lib, a, keys) && KeysOf(lib, b, keys')
    requires forall raw :: raw in a <==> raw in b
    ensures keys == keys'
  {
    KeysIncluded(lib, a, b, keys, keys');
    KeysIncluded(lib, b, a, keys', keys);
    WithinBoth(keys, keys');
  }

  lemma HasUsableAlike(lib: Library, a: seq<Value>, b: seq<Value>)
    requires forall raw :: raw in a <==> raw in b
    ensures HasUsable(lib, a) == HasUsable(lib, b)
    ensures AllObjects(a) == AllObjects(b)
  {
  }

  /** Reordering the keys of a JWKS changes neither whether it loads nor what is loaded. */
  lemma KeyOrderIndependence(lib: Library, policy: JwtPolicy, json: string, reordered: string)
    requires KeysArray(lib, json).Some? && KeysArray(lib, reordered).Some?
    requires multiset(KeysArray(lib, json).value) == multiset(KeysArray(lib, reordered).value)
    ensures Load(lib, policy, json) == Load(lib, policy, reordered)
  {
    var a, b := KeysArray(lib, json).value, KeysArray(lib, reordered).value;
    SameElements(a, b);
    HasUsableAlike(lib, a, b);
    if !DistinctKids(a) {
      PermutedDuplicates(b, a);
    } else if !DistinctKids(b) {
      PermutedDuplicates(a, b);
    }
    LoadSucceeds(lib, policy, json);
    LoadSucceeds(lib, policy, reordered);
    if Load(lib, policy, json).Ok? {
      KeysOfUnique(lib, a, b, Load(lib, policy, json).value.keys, Load(lib, policy, reordered).value.keys);
    }
    LoadErrs(lib, policy, json);
    LoadErrs(lib, policy, reordered);
  }

  lemma LoadErrs(lib: Library, policy: JwtPolicy, json: string)
    ensures Load(lib, policy, json).Err? ==> Load(lib, policy, json) == Err(ConfigError)
  {
  }

  lemma SameElements<T>(a: seq<T>, b: seq<T>)
    requires multiset(a) == multiset(b)
    ensures forall x :: x in a <==> x in b
  {
    assert forall x :: x in a <==> x in multiset(a);
    assert forall x :: x in b <==> x in multiset(b);
  }

  // ---------- loader transparency ----------

  /** Every keyed, decodable key, without the use, key_ops and alg filter of the loader. */
  function AllKeys(lib: Library, raws: seq<Value>): map<string, SigningKey> {
    if raws == [] then map[]
    else
      var keys := AllKeys(lib, raws[..|raws| - 1]);
      var raw := raws[|raws| - 1];
      if KidOf(raw).Some? && KeyOf(lib, raw).Some? then keys[KidOf(raw).value := KeyOf(lib, raw).value] else keys
  }

  lemma {:induction false} FilterDropsIgnored(lib: Library, raws: seq<Value>)
    requires LoadKeys(lib, raws).Some?
    ensures var loaded, all := LoadKeys(lib, raws).value, AllKeys(lib, raws);
            && loaded.keys.Keys <= all.Keys <= loaded.seen
            && forall kid | kid in all ::
                 if kid in loaded.keys then all[kid] == loaded.keys[kid] else Ignored(all[kid].meta)
  {
    if raws == [] {
    } else {
      FilterDropsIgnored(lib, raws[..|raws| - 1]);
    }
  }

  lemma IgnoredIsRefused(meta: JwkMeta, alg: Algorithm)
    requires Ignored(meta)
    ensures CheckJwkMetadata(meta, alg) == Err(InvalidSignature)
  {
  }

  /**
   Filtering at load time (sections 4.2 to 4.4 of RFC 7517) only changes which
   refusal an ignored key gets: tokens are accepted alike, with the same uid.
   */
  lemma LoaderTransparency(lib: Library, policy: JwtPolicy, json: string, token: string, clock: Clock)
    requires Load(lib, policy, json).Ok?
    ensures var filtered := Verify(lib, Load(lib, policy, json).value, token, clock);
            var full := Verify(lib, JwtVerifier(policy, AllKeys(lib, KeysArray(lib, json).value)), token, clock);
            || filtered == full
            || (filtered.Err? && filtered.error.UnknownSigningKey? && full == Err(InvalidSignature))
  {
    hide CheckClaims, AlgorithmAllowed, TokenShape, PolicyUsable;
    var raws := KeysArray(lib, json).value;
    var all := AllKeys(lib, raws);
    FilterDropsIgnored(lib, raws);
    match lib.decodeHeader(token)
    case Some(Header(alg, Some(kid))) =>
      if kid in all && kid !in LoadKeys(lib, raws).value.keys {
        IgnoredIsRefused(all[kid].meta, alg);
      }
    case _ =>
  }
}
