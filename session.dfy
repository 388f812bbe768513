/** The auth0_server wrapper: each run of its reactive effect computes
    `user_info()` and stores it on the Shiny session as `session.user`.
    `user_info()` short-circuits when authentication is disabled or a user is
    already bound, and otherwise reads `code` from the page's query string
    and performs the exchange of validate_jwt. */
module Server {
  import opened Values
  import opened Urls
  import opened Config
  import opened CodeExchange

  /** The arguments auth0_server was given besides the wrapped server
      function. */
  datatype ServerWrapper = ServerWrapper(configPath: Option<string>, state: Option<string>)

  /** What one run of the effect depends on: the host the configuration is
      loaded from, `session.clientdata.url_search()`, and the provider. */
  datatype Run = Run(host: Host, search: string, provider: Provider)

  /** `os.environ.get("AUTH0_DISABLE", "0") == "1"` */
  predicate AuthDisabled(env: map<string, string>) {
    "AUTH0_DISABLE" in env && env["AUTH0_DISABLE"] == "1"
  }

  /** `getattr(session, "user", None)` is truthy: set, and a non-empty
      dict. */
  predicate Bound(user: Option<Profile>) {
    user.Some? && user.value != map[]
  }

  /** The query string without its leading "?". */
  function StripQuery(search: string): string {
    if |search| > 0 && search[0] == '?' then search[1..] else search
  }

  /** `parse_qs(params_str).get(name, [None])[0]` */
  function QueryValue(search: string, name: string): Option<string> {
    FirstValue(ParseQsl(StripQuery(search)), name)
  }

  /** One evaluation of `user_info()`: its value or the error it raised,
      the requests sent, and whether validate_jwt was called. */
  datatype Step = Step(result: Result<Profile>, sent: seq<HttpRequest>, exchanged: bool)

  function UserInfo(server: ServerWrapper, disabled: bool, user: Option<Profile>, run: Run): (s: Step)
    // the kill switch and the bound user are answered without any request
    ensures disabled ==> s == Step(Ok(map[]), [], false)
    ensures !disabled && Bound(user) ==> s == Step(Ok(user.value), [], false)
    // validate_jwt is called exactly when nothing short-circuits, the
    // configuration loads and the query string carries a non-empty code
    ensures s.exchanged <==>
      !disabled && !Bound(user) && LoadAuth0Config(server.configPath, run.host).Ok? &&
      NonEmpty(QueryValue(run.search, "code"))
    ensures s.exchanged ==>
      Attempt(s.result, s.sent) ==
      Exchange(QueryValue(run.search, "code").value,
               LoadAuth0Config(server.configPath, run.host).value, run.provider)
    ensures !s.exchanged ==> s.sent == []
    // a failed configuration or a missing code is an error
    ensures !disabled && !Bound(user) && LoadAuth0Config(server.configPath, run.host).Err? ==>
      s.result == Err(DomainNotConfigured)
    ensures !disabled && !Bound(user) && LoadAuth0Config(server.configPath, run.host).Ok? &&
            !NonEmpty(QueryValue(run.search, "code")) ==>
      s.result == Err(CodeNotFound)
  {
    if disabled then Step(Ok(map[]), [], false)
    else if Bound(user) then Step(Ok(user.value), [], false)
    else
      match LoadAuth0Config(server.configPath, run.host)
      case Err(e) => Step(Err(e), [], false)
      case Ok(config) =>
        var code := QueryValue(run.search, "code");
        if !NonEmpty(code) then Step(Err(CodeNotFound), [], false)
        else
          var a := Exchange(code.value, config, run.provider);
          Step(a.result, a.sent, true)
  }

  /** What a session holds for this wrapper: `session.user` (None while the
      attribute is unset), how many times validate_jwt was called, and the
      requests sent to the provider, in order. */
  datatype SessionState = SessionState(user: Option<Profile>, exchanges: nat, sent: seq<HttpRequest>)

  /** One run of the effect `session.user = user_info()`: the user is
      replaced by the value, and left as it was when user_info raises. */
  function Effect(server: ServerWrapper, disabled: bool, st: SessionState, run: Run): SessionState {
    var s := UserInfo(server, disabled, st.user, run);
    SessionState(if s.result.Ok? then Some(s.result.value) else st.user,
                 st.exchanges + (if s.exchanged then 1 else 0),
                 st.sent + s.sent)
  }

  /** Successive runs of the effect, the last one applied last. */
  function RunAll(server: ServerWrapper, disabled: bool, st: SessionState, runs: seq<Run>): SessionState
    decreases |runs|
  {
    if runs == [] then st
    else Effect(server, disabled, RunAll(server, disabled, st, runs[..|runs| - 1]), runs[|runs| - 1])
  }

  /** A Shiny session under auth0_server. `server` and `disabled` are fixed
      when the wrapper is called for the session; `user` is the attribute
      the effect assigns. */
  class Session {
    const server: ServerWrapper
    const disabled: bool
    var user: Option<Profile>
    var exchanges: nat
    var sent: seq<HttpRequest>

    function State(): SessionState
      reads this
    {
      SessionState(user, exchanges, sent)
    }

    constructor (server: ServerWrapper, env: map<string, string>)
      ensures this.server == server && disabled == AuthDisabled(env)
      ensures State() == SessionState(None, 0, [])
    {
      this.server := server;
      disabled := AuthDisabled(env);
      user := None;
      exchanges := 0;
      sent := [];
    }

    /** One run of the effect: evaluate user_info and assign the result to
        `user`; on an error `user` keeps its value. */
    method RunAuthEffect(run: Run) returns (outcome: Result<Profile>)
      modifies this
      ensures outcome == UserInfo(server, disabled, old(user), run).result
      ensures State() == Effect(server, disabled, old(State()), run)
    {
      var requests: seq<HttpRequest> := [];
      var exchanged := false;
      if disabled {
        outcome := Ok(map[]);
      } else if user.Some? && user.value != map[] {
        outcome := Ok(user.value);
      } else {
        var config := LoadAuth0Config(server.configPath, run.host);
        if config.Err? {
          outcome := Err(config.error);
        } else {
          var paramsStr := run.search;
          if |paramsStr| > 0 && paramsStr[0] == '?' {
            paramsStr := paramsStr[1..];
          }
          var params := ParseQsl(paramsStr);
          var code := FirstValue(params, "code");
          var state := FirstValue(params, "state");
          if !NonEmpty(code) {
            outcome := Err(CodeNotFound);
          } else {
            outcome, requests := ValidateJwt(code.value, config.value, state, run.provider);
            exchanged := true;
          }
        }
      }
      if exchanged {
        exchanges := exchanges + 1;
      }
      sent := sent + requests;
      if outcome.Ok? {
        user := Some(outcome.value);
      }
    }
  }

  /** What the successive runs of the effect return: each run evaluates
      user_info on the user the earlier runs left. */
  function Outcomes(server: ServerWrapper, disabled: bool, st: SessionState, runs: seq<Run>): (o: seq<Result<Profile>>)
    ensures |o| == |runs|
    decreases |runs|
  {
    if runs == [] then []
    else
      var k := |runs| - 1;
      Outcomes(server, disabled, st, runs[..k])
      + [UserInfo(server, disabled, RunAll(server, disabled, st, runs[..k]).user, runs[k]).result]
  }

  /** The i-th outcome is user_info evaluated on the user the first i runs
      left, against the i-th run. */
  lemma {:induction false} OutcomeAt(server: ServerWrapper, disabled: bool, st: SessionState,
                                     runs: seq<Run>, i: nat)
    requires i < |runs|
    ensures Outcomes(server, disabled, st, runs)[i]
            == UserInfo(server, disabled, RunAll(server, disabled, st, runs[..i]).user, runs[i]).result
    decreases |runs|
  {
    var k := |runs| - 1;
    var prefix := Outcomes(server, disabled, st, runs[..k]);
    var last := UserInfo(server, disabled, RunAll(server, disabled, st, runs[..k]).user, runs[k]).result;
    assert Outcomes(server, disabled, st, runs) == prefix + [last];
    if i < k {
      OutcomeAt(server, disabled, st, runs[..k], i);
      assert runs[..k][..i] == runs[..i] && runs[..k][i] == runs[i];
      assert (prefix + [last])[i] == prefix[i];
    }
  }

  /** A new session run through `runs`, one effect run after another: the
      outcomes of the runs and the final state. */
  method Authenticate(server: ServerWrapper, env: map<string, string>, runs: seq<Run>)
    returns (outcomes: seq<Result<Profile>>, final: SessionState)
    ensures final == RunAll(server, AuthDisabled(env), SessionState(None, 0, []), runs)
    ensures outcomes == Outcomes(server, AuthDisabled(env), SessionState(None, 0, []), runs)
  {
    var session := new Session(server, env);
    outcomes := [];
    var i := 0;
    while i < |runs|
      invariant 0 <= i <= |runs|
      invariant session.server == server && session.disabled == AuthDisabled(env)
      invariant session.State() == RunAll(server, AuthDisabled(env), SessionState(None, 0, []), runs[..i])
      invariant outcomes == Outcomes(server, AuthDisabled(env), SessionState(None, 0, []), runs[..i])
    {
      RunAllStep(server, AuthDisabled(env), SessionState(None, 0, []), runs, i);
      var outcome := session.RunAuthEffect(runs[i]);
      outcomes := outcomes + [outcome];
      i := i + 1;
    }
    assert runs[..i] == runs;
    final := session.State();
  }

  /** With AUTH0_DISABLE=1 every run yields the empty profile and nothing is
      loaded, parsed or sent, whatever the configuration. */
  lemma {:induction false} DisabledNeverExchanges(server: ServerWrapper, st: SessionState, runs: seq<Run>)
    ensures RunAll(server, true, st, runs).exchanges == st.exchanges
    ensures RunAll(server, true, st, runs).sent == st.sent
    ensures runs != [] ==> RunAll(server, true, st, runs).user == Some(map[])
    decreases |runs|
  {
    if runs != [] {
      DisabledNeverExchanges(server, st, runs[..|runs| - 1]);
    }
  }

  /** Once a user is bound, further runs return it and change nothing: no
      exchange, no request, the same user. */
  lemma {:induction false} BoundStaysBound(server: ServerWrapper, st: SessionState, runs: seq<Run>)
    requires Bound(st.user)
    ensures RunAll(server, false, st, runs) == st
    decreases |runs|
  {
    if runs != [] {
      BoundStaysBound(server, st, runs[..|runs| - 1]);
    }
  }

  lemma RunAllStep(server: ServerWrapper, disabled: bool, st: SessionState, runs: seq<Run>, i: nat)
    requires i < |runs|
    ensures RunAll(server, disabled, st, runs[..i + 1])
            == Effect(server, disabled, RunAll(server, disabled, st, runs[..i]), runs[i])
    ensures Outcomes(server, disabled, st, runs[..i + 1])
            == Outcomes(server, disabled, st, runs[..i])
               + [UserInfo(server, disabled, RunAll(server, disabled, st, runs[..i]).user, runs[i]).result]
  {
    assert runs[..i + 1][..i] == runs[..i];
  }

  lemma {:induction false} RunAllAppend(server: ServerWrapper, disabled: bool, st: SessionState,
                                        a: seq<Run>, b: seq<Run>)
    ensures RunAll(server, disabled, st, a + b) == RunAll(server, disabled, RunAll(server, disabled, st, a), b)
    decreases |b|
  {
    if b == [] {
      assert a + b == a;
    } else {
      assert (a + b)[..|a + b| - 1] == a + b[..|b| - 1];
      RunAllAppend(server, disabled, st, a, b[..|b| - 1]);
    }
  }

  /** The exchange runs at most once per binding: once the runs `pre`
      leave a user bound, the runs that follow change nothing. */
  lemma NoExchangeAfterBinding(server: ServerWrapper, st: SessionState, pre: seq<Run>, post: seq<Run>)
    requires Bound(RunAll(server, false, st, pre).user)
    ensures RunAll(server, false, st, pre + post) == RunAll(server, false, st, pre)
  {
    RunAllAppend(server, false, st, pre, post);
    BoundStaysBound(server, RunAll(server, false, st, pre), post);
  }

  /** From a session with no user, a run whose exchange yields a non-empty
      profile binds it, and that is the only exchange the session ever
      makes, whatever runs follow. */
  lemma ExchangedOnce(server: ServerWrapper, st: SessionState, run: Run, post: seq<Run>)
    requires !Bound(st.user)
    requires var s := UserInfo(server, false, st.user, run);
      s.exchanged && s.result.Ok? && s.result.value != map[]
    ensures RunAll(server, false, st, [run] + post).exchanges == st.exchanges + 1
    ensures RunAll(server, false, st, [run] + post).user
            == Some(UserInfo(server, false, st.user, run).result.value)
  {
    assert [run][..0] == [];
    assert RunAll(server, false, st, [run]) == Effect(server, false, st, run);
    NoExchangeAfterBinding(server, st, [run], post);
  }

  /** With no user bound, a query string without a non-empty `code` is an
      error raised before any exchange: the session is left as it was. */
  lemma MissingCodeChangesNothing(server: ServerWrapper, st: SessionState, run: Run)
    requires !Bound(st.user) && !NonEmpty(QueryValue(run.search, "code"))
    ensures Effect(server, false, st, run) == st
  {
  }

  lemma StripQueryMark(q: string)
    ensures StripQuery("?" + q) == q
  {
    assert ("?" + q)[1..] == q;
  }

  /** In a query `?<urlencoded parameters>` the value read for a name is
      the first non-empty value the parameters give it. */
  lemma CallbackValue(params: seq<(string, string)>, name: string)
    ensures QueryValue("?" + UrlEncode(params), name) == FirstValue(NonBlank(params), name)
  {
    StripQueryMark(UrlEncode(params));
    ParseQslUrlEncode(params);
  }

  /** The provider's callback `?<urlencoded parameters>`: the first `code`
      among the parameters is the one exchanged. */
  lemma CallbackExchanges(server: ServerWrapper, st: SessionState, host: Host, provider: Provider,
                          params: seq<(string, string)>, code: string)
    requires !Bound(st.user)
    requires LoadAuth0Config(server.configPath, host).Ok?
    requires FirstValue(params, "code") == Some(code) && code != ""
    ensures var s := UserInfo(server, false, st.user, Run(host, "?" + UrlEncode(params), provider));
      s.exchanged &&
      Attempt(s.result, s.sent) == Exchange(code, LoadAuth0Config(server.configPath, host).value, provider)
  {
    CallbackValue(params, "code");
    FirstValueNonBlank(params, "code");
  }

  /** Nothing is cached while no user is bound: a run that exchanged and
      raised, or bound the falsy profile `{}`, exchanges again when it is
      repeated, with the same requests. */
  lemma UnboundRunRepeats(server: ServerWrapper, st: SessionState, run: Run)
    requires !Bound(st.user)
    requires var s := UserInfo(server, false, st.user, run);
      s.exchanged && (s.result.Err? || s.result.value == map[])
    ensures var once := Effect(server, false, st, run);
      var twice := Effect(server, false, once, run);
      !Bound(once.user) && twice.exchanges == st.exchanges + 2 &&
      twice.sent == st.sent + UserInfo(server, false, st.user, run).sent
                            + UserInfo(server, false, st.user, run).sent
  {
    var once := Effect(server, false, st, run);
    assert UserInfo(server, false, once.user, run) == UserInfo(server, false, st.user, run);
  }

  /** The `state` of the callback plays no part on the server side: two
      callbacks that differ only in it give the same step. */
  lemma ServerIgnoresCallbackState(server: ServerWrapper, disabled: bool, user: Option<Profile>,
                                   host: Host, provider: Provider, code: string, s1: string, s2: string)
    ensures UserInfo(server, disabled, user, Run(host, "?" + UrlEncode([("code", code), ("state", s1)]), provider))
         == UserInfo(server, disabled, user, Run(host, "?" + UrlEncode([("code", code), ("state", s2)]), provider))
  {
    CallbackCode(code, s1);
    CallbackCode(code, s2);
  }

  /** The code read from a `?code=…&state=…` callback: the code itself, or
      none when it is empty, whatever the state. */
  lemma CallbackCode(code: string, state: string)
    ensures QueryValue("?" + UrlEncode([("code", code), ("state", state)]), "code")
            == if code == "" then None else Some(code)
  {
    CallbackValue([("code", code), ("state", state)], "code");
    CodeAmongNonBlank(code, state);
  }

  lemma CodeAmongNonBlank(code: string, state: string)
    ensures FirstValue(NonBlank([("code", code), ("state", state)]), "code")
            == if code == "" then None else Some(code)
  {
    var params := [("code", code), ("state", state)];
    assert params[1..] == [("state", state)];
    assert [("state", state)][1..] == [];
    if code != "" {
      assert NonBlank(params) == [("code", code)] + NonBlank([("state", state)]);
    } else {
      assert NonBlank(params) == NonBlank([("state", state)]);
      if state == "" {
        assert NonBlank([("state", state)]) == NonBlank([]);
      } else {
        assert NonBlank([("state", state)]) == [("state", state)] + NonBlank([]);
        assert "state"[0] != "code"[0];
      }
    }
  }

  /** The wrapper's own `state` argument is never read. */
  lemma ServerIgnoresWrapperState(path: Option<string>, s1: Option<string>, s2: Option<string>,
                                  disabled: bool, user: Option<Profile>, run: Run)
    ensures UserInfo(ServerWrapper(path, s1), disabled, user, run) == UserInfo(ServerWrapper(path, s2), disabled, user, run)
  {
  }
}
