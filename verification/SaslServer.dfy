/** One step of the OAUTHBEARER server. */
module SaslServer {
  import opened Prelude
  import opened Utf8
  import opened Rfc7628
  import opened Jwt
  import opened SaslFfi

  const MAX_CLIENTIN_LEN: nat := 65_536
  const TLS_SSF: nat := 256
  const COMPLETION: seq<Byte> := [0x01]
  /** {"status":"invalid_token"} */
  const INVALID_TOKEN_JSON: seq<Byte> := [
    0x7B, 0x22, 0x73, 0x74, 0x61, 0x74, 0x75, 0x73, 0x22, 0x3A, 0x22, 0x69, 0x6E,
    0x76, 0x61, 0x6C, 0x69, 0x64, 0x5F, 0x74, 0x6F, 0x6B, 0x65, 0x6E, 0x22, 0x7D]

  datatype ServerConfig = ServerConfig(tlsRequired: bool, verifier: JwtVerifier)

  /** What the SASL library and the clock answer during one step. ssf: None if it cannot be had. */
  datatype Env = Env(ssf: Option<nat>, clock: Clock, canon: Option<CanonUser>)

  datatype ServerView = ServerView(serverOut: Option<seq<Byte>>, out: Published, params: Params)

  function CheckTls(config: ServerConfig, env: Env): int {
    if !config.tlsRequired then SASL_OK
    else if env.ssf.None? then SASL_BADPARAM
    else if env.ssf.value < TLS_SSF then SASL_ENCRYPT
    else SASL_OK
  }

  /** The authzid first; without one the token's identity is both. */
  function CanonicaliseBoth(canon: CanonUser, authcid: seq<Byte>, authzid: Option<string>, p: Params): (int, Params) {
    if NonEmpty(authzid).None? then canon(authcid, SASL_CU_AUTHID + SASL_CU_AUTHZID, p)
    else if 0 in Encode(authzid.value) then (SASL_BADPROT, p)
    else
      var (rc, p1) := canon(Encode(authzid.value), SASL_CU_AUTHZID, p);
      if rc != SASL_OK then (rc, p1) else canon(authcid, SASL_CU_AUTHID, p1)
  }

  function Admit(env: Env, uid: string, authzid: Option<string>, v: ServerView): (int, ServerView) {
    if env.canon.None? then (SASL_FAIL, v)
    else if 0 in Encode(uid) then (SASL_NOUSER, v)
    else
      var (rc, p) := CanonicaliseBoth(env.canon.value, Encode(uid), authzid, v.params);
      (rc, v.(params := if rc == SASL_OK then Finished(p) else p))
  }

  function ServerStep(lib: Library, config: ServerConfig, env: Env, input: seq<Byte>, v: ServerView)
    : (int, ServerView)
  {
    var v1 := v.(out := NOTHING);
    if CheckTls(config, env) != SASL_OK then (CheckTls(config, env), v1)
    else if |input| > MAX_CLIENTIN_LEN then (SASL_BADPROT, v1)
    else if input == COMPLETION then (SASL_BADAUTH, v1.(params := Finished(v.params)))
    else
      match Parse(input)
      case Err(_) => (SASL_BADPROT, v1)
      case Ok(response) =>
        match Verify(lib, config.verifier, response.token, env.clock)
        case Err(_) =>
          (SASL_CONTINUE, v1.(serverOut := Some(INVALID_TOKEN_JSON), out := Publishing(INVALID_TOKEN_JSON)))
        case Ok(uid) => Admit(env, uid, response.authzid, v1)
  }

  class ServerContext {
    const config: ServerConfig
    var serverOut: Option<seq<Byte>>

    constructor (config: ServerConfig)
      ensures this.config == config && serverOut == None
    {
      this.config := config;
      serverOut := None;
    }

    function View(out: OutBuf, oparams: OutParams): ServerView
      reads this, out, oparams
    {
      ServerView(serverOut, out.Value(), oparams.Value())
    }

    method Step(lib: Library, env: Env, input: seq<Byte>, out: OutBuf, oparams: OutParams) returns (rc: int)
      modifies this, out, oparams
      ensures (rc, View(out, oparams)) == ServerStep(lib, config, env, input, old(View(out, oparams)))
    {
      out.Clear();
      if config.tlsRequired {
        if env.ssf.None? {
          return SASL_BADPARAM;
        }
        if env.ssf.value < TLS_SSF {
          return SASL_ENCRYPT;
        }
      }
      if |input| > MAX_CLIENTIN_LEN {
        return SASL_BADPROT;
      }
      if input == [0x01] {
        oparams.Finish();
        return SASL_BADAUTH;
      }
      var response := ParseClientResponse(input);
      if response.Err? {
        return SASL_BADPROT;
      }
      var uid := Verify(lib, config.verifier, response.value.token, env.clock);
      if uid.Err? {
        serverOut := Some(INVALID_TOKEN_JSON);
        out.Publish(serverOut.value);
        return SASL_CONTINUE;
      }
      rc := AdmitUser(env, uid.value, response.value.authzid, out, oparams);
    }

    method AdmitUser(env: Env, uid: string, authzid: Option<string>, out: OutBuf, oparams: OutParams) returns (rc: int)
      modifies oparams
      ensures (rc, View(out, oparams)) == Admit(env, uid, authzid, old(View(out, oparams)))
    {
      if env.canon.None? {
        return SASL_FAIL;
      }
      var authcid := Encode(uid);
      if 0 in authcid {
        return SASL_NOUSER;
      }
      if authzid.Some? && authzid.value != "" {
        if 0 in Encode(authzid.value) {
          return SASL_BADPROT;
        }
        rc := oparams.Apply(env.canon.value, Encode(authzid.value), SASL_CU_AUTHZID);
        if rc == SASL_OK {
          rc := oparams.Apply(env.canon.value, authcid, SASL_CU_AUTHID);
        }
      } else {
        rc := oparams.Apply(env.canon.value, authcid, SASL_CU_AUTHID + SASL_CU_AUTHZID);
      }
      if rc != SASL_OK {
        return;
      }
      oparams.Finish();
      return SASL_OK;
    }
  }
}
