/** One step of the OAUTHBEARER client. */
module SaslClient {
  import opened Prelude
  import opened Utf8
  import opened Rfc7628
  import opened SaslFfi

  const MAX_SERVERIN_LEN: nat := 65_536
  const ERROR_COMPLETION: seq<Byte> := [0x01]
  const ANONYMOUS: seq<Byte> := [0x61, 0x6E, 0x6F, 0x6E, 0x79, 0x6D, 0x6F, 0x75, 0x73] // "anonymous"

  /**
   What the application and the SASL library answer during one step. present:
   there is a place for a prompt array; canFree: there is a free function;
   allocates: malloc succeeds.
   */
  datatype App = App(
    user: Callback, pass: Callback, present: bool, canFree: bool, allocates: bool,
    canon: Option<CanonUser>, ssfTooWeak: bool)

  /** What a client step reads and writes. */
  datatype ClientView = ClientView(output: seq<Byte>, out: Published, params: Params, prompts: Option<seq<Interact>>) {
    predicate Valid() {
      prompts.Some? ==> ValidEntries(prompts.value)
    }
  }

  predicate TooBig(serverIn: seq<Byte>) {
    |serverIn| % U32_SIZE > MAX_SERVERIN_LEN
  }

  /** The steps that ask for the values and give the prompt array back. */
  predicate Harvests(app: App, serverIn: seq<Byte>, isFinal: bool) {
    !TooBig(serverIn) && !isFinal && !app.ssfTooWeak
  }

  /** The checks on the values, without canonicalisation: authzid and token, or the code to return. */
  function CheckValues(app: App, user: CbValue, pass: CbValue): Result<(Option<string>, string), int>
    requires !user.NeedPrompt? && !pass.NeedPrompt?
  {
    if user.Fail? then Err(user.rc)
    else if pass.Fail? then Err(pass.rc)
    else if pass.value.None? || Decode(pass.value.value).None? then Err(SASL_BADPARAM)
    else if app.canon.None? then Err(SASL_FAIL)
    else
      var token := Decode(pass.value.value).value;
      match NonEmpty(user.value)
      case None => Ok((None, token))
      case Some(bytes) =>
        match Decode(bytes)
        case None => Err(SASL_BADPARAM)
        case Some(authzid) => Ok((Some(authzid), token))
  }

  /** The client's own identity is a placeholder; the authzid, if any, is canonicalised. */
  function Canonicalise(canon: CanonUser, authzid: Option<string>, p: Params): (int, Params) {
    var (rc, p1) := canon(ANONYMOUS, SASL_CU_AUTHID, p);
    if rc != SASL_OK then (rc, p1)
    else if authzid.None? then canon(ANONYMOUS, SASL_CU_AUTHZID, p1)
    else if 0 in Encode(authzid.value) then (SASL_BADPARAM, p1)
    else canon(Encode(authzid.value), SASL_CU_AUTHZID, p1)
  }

  function Respond(app: App, user: CbValue, pass: CbValue, v: ClientView): (r: (int, ClientView))
    requires !user.NeedPrompt? && !pass.NeedPrompt?
  {
    match CheckValues(app, user, pass)
    case Err(rc) => (rc, v)
    case Ok((authzid, token)) =>
      var (rc, params) := Canonicalise(app.canon.value, authzid, v.params);
      if rc != SASL_OK then (rc, v.(params := params))
      else
        var output := Build(authzid, token);
        (SASL_CONTINUE, v.(params := params, output := output, out := Publishing(output)))
  }

  function ClientStep(app: App, serverIn: seq<Byte>, isFinal: bool, v: ClientView): (r: (int, ClientView))
    requires v.Valid()
    ensures r.1.Valid()
  {
    if TooBig(serverIn) then (SASL_BADPROT, v)
    else if isFinal then
      (SASL_OK, v.(output := ERROR_COMPLETION, out := Publishing(ERROR_COMPLETION), params := Finished(v.params)))
    else if app.ssfTooWeak then (SASL_TOOWEAK, v.(out := NOTHING))
    else
      var user := GetSimple(v.prompts, SASL_CB_USER, app.user);
      var pass := GetPassword(v.prompts, app.pass);
      var v1 := v.(out := NOTHING, prompts := None);
      if user.NeedPrompt? || pass.NeedPrompt? then
        var rc := RequestCode(app.present, app.allocates);
        if rc != SASL_INTERACT then (rc, v1)
        else (rc, v1.(prompts := Some(RequestEntries(user.NeedPrompt?, pass.NeedPrompt?))))
      else Respond(app, user, pass, v1)
  }

  class ClientContext {
    var output: seq<Byte>

    constructor ()
      ensures output == []
    {
      output := [];
    }
  }

  /** The arguments of one step over the objects they point to. */
  class Stepper {
    const app: App
    const ctx: ClientContext
    const serverIn: seq<Byte>
    const isFinal: bool
    const prompts: Prompts
    const out: OutBuf
    const oparams: OutParams

    constructor (app: App, ctx: ClientContext, serverIn: seq<Byte>, isFinal: bool,
                 prompts: Prompts, out: OutBuf, oparams: OutParams)
      ensures this.app == app && this.ctx == ctx && this.serverIn == serverIn && this.isFinal == isFinal
      ensures this.prompts == prompts && this.out == out && this.oparams == oparams
    {
      this.app, this.ctx, this.serverIn, this.isFinal := app, ctx, serverIn, isFinal;
      this.prompts, this.out, this.oparams := prompts, out, oparams;
    }

    ghost function View(): ClientView
      reads ctx, out, oparams, prompts, prompts.slot
    {
      ClientView(ctx.output, out.Value(), oparams.Value(), prompts.View())
    }

    ghost predicate Valid()
      reads prompts, prompts.allocator, prompts.slot
    {
      prompts.Valid() && prompts.present == app.present
    }

    /** The array of the previous round is given back once, after its results were copied. */
    method Run() returns (rc: int)
      requires Valid()
      modifies ctx, out, oparams, prompts`slot, prompts.allocator`live
      ensures Valid()
      ensures (rc, View()) == ClientStep(app, serverIn, isFinal, old(View()))
      ensures !Harvests(app, serverIn, isFinal) ==>
                prompts.slot == old(prompts.slot) && prompts.allocator.live == old(prompts.allocator.live)
      ensures Harvests(app, serverIn, isFinal) ==>
                && (prompts.slot == null || fresh(prompts.slot))
                && var kept := if app.canFree && old(prompts.slot) != null
                               then old(prompts.allocator.live) - {old(prompts.slot)}
                               else old(prompts.allocator.live);
                   prompts.allocator.live == if prompts.slot == null then kept else kept + {prompts.slot}
    {
      if |serverIn| % U32_SIZE > MAX_SERVERIN_LEN {
        return SASL_BADPROT;
      }
      if isFinal {
        ctx.output := [];
        ctx.output := ctx.output + [0x01];
        assert ctx.output == ERROR_COMPLETION;
        out.Publish(ctx.output);
        oparams.Finish();
        return SASL_OK;
      }
      out.Clear();
      if app.ssfTooWeak {
        return SASL_TOOWEAK;
      }
      var user := prompts.GetSimpleValue(SASL_CB_USER, app.user);
      var pass := prompts.GetPasswordValue(app.pass);
      prompts.Release(app.canFree);
      var wantUser, wantPass := user.NeedPrompt?, pass.NeedPrompt?;
      if wantUser || wantPass {
        rc := prompts.Request(wantUser, wantPass, app.allocates);
        return;
      }
      rc := RespondTo(user, pass);
    }

    method RespondTo(user: CbValue, pass: CbValue) returns (rc: int)
      requires !user.NeedPrompt? && !pass.NeedPrompt?
      modifies ctx, out, oparams
      ensures (rc, View()) == Respond(app, user, pass, old(View()))
    {
      if user.Fail? {
        return user.rc;
      }
      var authzidBytes := user.value;
      if pass.Fail? {
        return pass.rc;
      }
      if pass.value.None? {
        return SASL_BADPARAM;
      }
      var token := Decode(pass.value.value);
      if token.None? {
        return SASL_BADPARAM;
      }
      if app.canon.None? {
        return SASL_FAIL;
      }
      var authzid: Option<string> := None;
      if authzidBytes.Some? && authzidBytes.value != [] {
        authzid := Decode(authzidBytes.value);
        if authzid.None? {
          return SASL_BADPARAM;
        }
      }
      rc := oparams.Apply(app.canon.value, ANONYMOUS, SASL_CU_AUTHID);
      if rc != SASL_OK {
        return;
      }
      if authzid.Some? {
        if 0 in Encode(authzid.value) {
          return SASL_BADPARAM;
        }
        rc := oparams.Apply(app.canon.value, Encode(authzid.value), SASL_CU_AUTHZID);
      } else {
        rc := oparams.Apply(app.canon.value, ANONYMOUS, SASL_CU_AUTHZID);
      }
      if rc != SASL_OK {
        return;
      }
      ctx.output := BuildClientResponse(authzid, token.value);
      out.Publish(ctx.output);
      return SASL_CONTINUE;
    }
  }
}
