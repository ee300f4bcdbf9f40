/**
 What the answers of the cache are made of, in the fields of files, arguments
 and tokens: which files are read, and which tokens a verifier that was handed out accepts.
 */
module CacheAnswers {
  import opened Prelude
  import opened Utf8
  import opened Jwt
  import opened JwtTheorems
  import opened TokenTheorems
  import opened Pam
  import opened Plain
  import opened OptionTheorems
  import opened CacheModel
  import opened CacheInvariant
  import opened CacheTheorems

  // ---------- files that are read ----------

  /** The file an answer comes from was regular, and writable by its owner only, when it was opened. */
  predicate OpenedSafely(hist: seq<Fs>, origin: Origin) {
    origin.FromFile? ==>
      && origin.openAt < |hist| && origin.ino in hist[origin.openAt].files
      && hist[origin.openAt].files[origin.ino].regular && !hist[origin.openAt].files[origin.ino].shared
  }

  /** Whatever happens to the files: no configuration is taken from one others may write, or that is no regular file. */
  lemma ConfigFilesAreSafe(w: World, s: Sys)
    requires w.tick > 0 && Reachable(w, s)
    ensures forall raw | raw in s.cache :: OpenedSafely(s.hist, s.cache[raw].origin)
    ensures forall t |
              && t in s.threads && s.threads[t].Done? && s.threads[t].call.ConfigCall? && s.threads[t].outcome.Some? ::
              OpenedSafely(s.hist, s.threads[t].outcome.value.origin)
  {
    hide Reachable, ConfigFromText, ConfigPath, Inline, StampSound;
    ReachableInv(w, s);
    forall raw | raw in s.cache ensures OpenedSafely(s.hist, s.cache[raw].origin) {
      assert EntryOk(w, s.hist, s.args, raw, s.cache[raw]);
    }
    forall t | t in s.threads && s.threads[t].Done? && s.threads[t].call.ConfigCall? && s.threads[t].outcome.Some?
      ensures OpenedSafely(s.hist, s.threads[t].outcome.value.origin)
    {
      assert ThreadOk(w, s.hist, s.args, s.threads[t]);
    }
  }

  /** The path names a file now. */
  predicate NamesFile(s: Sys, path: string)
    requires s.hist != []
  {
    path in Current(s).names && Current(s).names[path] in Current(s).files
  }

  /** The file a fill may open: a configuration must be regular and unshared, a JWKS file need not. */
  ghost predicate MayOpen(s: Sys, call: Call, ino: Inode)
    requires s.hist != [] && CallExists(s.args, call)
  {
    if call.ConfigCall? then
      && (exists path :: call.raw == ["config=" + path] && NamesFile(s, path) && Current(s).names[path] == ino)
      && ino in Current(s).files && Current(s).files[ino].regular && !Current(s).files[ino].shared
    else
      && s.args[call.config].iss.Some? && s.args[call.config].jwks.Some?
      && NamesFile(s, s.args[call.config].jwks.value)
      && Current(s).names[s.args[call.config].jwks.value] == ino
  }

  /** A fill can go on exactly if its path names a file it may open, and then opens that one. */
  lemma OpensExactly(w: World, s: Sys, t: nat)
    requires w.tick > 0 && s.hist != [] && ThreadOf(s, t).Filling? && CallExists(s.args, ThreadOf(s, t).call)
    ensures Enabled(w, s, OpenAndFstat(t)) <==> exists ino :: MayOpen(s, ThreadOf(s, t).call, ino)
    ensures Enabled(w, s, OpenAndFstat(t)) ==>
              var thread := ThreadOf(Apply(w, s, OpenAndFstat(t)), t);
              thread.Opened? && thread.openAt == |s.hist| - 1 && MayOpen(s, ThreadOf(s, t).call, thread.ino)
  {
    hide ConfigPath;
    var call := ThreadOf(s, t).call;
    if call.ConfigCall? {
      ConfigPathExactly(call.raw);
    }
    if Enabled(w, s, OpenAndFstat(t)) {
      assert MayOpen(s, call, ThreadOf(Apply(w, s, OpenAndFstat(t)), t).ino);
    }
  }

  // ---------- tokens ----------

  /** The policy of these arguments, field by field. */
  function PolicyWith(args: PamArgs, issuer: string): JwtPolicy {
    var policy := JwtPolicy(
      uidAttr := args.userid,
      grace := args.grace,
      trustedIssuer := issuer,
      trustedAudiences := args.trustedAud,
      trustedAuthorizedParties := args.trustedAzp,
      requiredScopes := args.requiredScope,
      disallowedUsernames := args.disallowedUsernames,
      allowedAlgorithms := args.allowedAlgorithms,
      disallowedAlgorithms := args.disallowedAlgorithms);
    policy
  }

  /**
   A verifier that a Config object handed out accepts exactly the tokens that
   its arguments ask for: every clause is about a field of these arguments, and
   the keys are those of the JWKS as it was read at one instant.
   */
  lemma TokensExactly(w: World, s: Sys, t: nat, c: nat, token: string, clock: Clock, uid: string)
    requires w.tick > 0 && Reachable(w, s)
    requires t in s.threads && s.threads[t].Done? && s.threads[t].outcome.Some? && s.threads[t].call == VerifierCall(c)
    ensures c < |s.args| && s.args[c].iss.Some? && s.threads[t].outcome.value.built.Verifier?
    ensures var verifier := s.threads[t].outcome.value.built.verifier;
            Verify(w.lib, verifier, token, clock) == Ok(uid) <==>
              Accepted(w.lib, JwtVerifier(PolicyWith(s.args[c], s.args[c].iss.value), verifier.keys), token, clock, uid)
    ensures var verifier := s.threads[t].outcome.value.built.verifier;
            exists ino, k: nat, text, raws ::
              && k < |s.hist| && ino in s.hist[k].files && s.hist[k].files[ino].contents == Encode(text)
              && IsJwks(w.lib, text, raws)
              && (forall kid | kid in verifier.keys :: HoldsKey(w.lib, raws, kid, verifier.keys[kid]))
              && forall kid, key | HoldsKey(w.lib, raws, kid, key) ::
                   kid in verifier.keys && verifier.keys[kid].key == key.key
  {
    hide Reachable, Verify, Accepted, Load, HoldsKey, IsJwks, Decode, BuiltFrom, StampSound;
    ReachableInv(w, s);
    assert ThreadOk(w, s.hist, s.args, s.threads[t]);
    var out := s.threads[t].outcome.value;
    BuiltHasPolicy(w, s, c, out.built, out.origin);
    var verifier := out.built.verifier;
    assert verifier == JwtVerifier(PolicyWith(s.args[c], s.args[c].iss.value), verifier.keys);
    VerifyAccepts(w.lib, verifier, token, clock, uid);
    var FromFile(ino, _, k) := out.origin;
    var text := Decode(s.hist[k].files[ino].contents).value;
    EncodeDecode(s.hist[k].files[ino].contents);
    var raws := JwksOf(w.lib, verifier.policy, text);
    LoadedKeys(w.lib, verifier.policy, text, raws);
  }

  lemma JwksOf(lib: Library, policy: JwtPolicy, json: string) returns (raws: seq<Value>)
    requires Load(lib, policy, json).Ok?
    ensures IsJwks(lib, json, raws)
  {
    hide LoadKeys, HoldsKey;
    LoadsExactly(lib, policy, json);
    raws :| IsJwks(lib, json, raws);
  }
}
