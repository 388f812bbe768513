/** AppAuth0: one state token, drawn once per application, handed to both
    the UI wrapper and the server wrapper over the same configuration. */
module Application {
  import opened Values
  import opened Urls
  import opened Config
  import opened Login
  import opened Server

  /** The two wrapped halves of the Shiny application. */
  datatype App = App(ui: UiWrapper, server: ServerWrapper)

  /** `AppAuth0(app_ui, server, config_path)`, where `token` is the value
      `secrets.token_urlsafe(16)` returned. */
  function AppAuth0(token: string, configPath: Option<string>): (a: App)
    ensures a.ui.state == a.server.state == Some(token)
    ensures a.ui.configPath == a.server.configPath == configPath
  {
    App(UiWrapper(configPath, Some(token)), ServerWrapper(configPath, Some(token)))
  }

  /** The login redirect of an AppAuth0 application carries the
      application's token as its state, never a fresh one. */
  lemma RedirectCarriesToken<T>(token: string, configPath: Option<string>, host: Host,
                                freshToken: string, render: Query -> T)
    requires token != ""
    requires LoadAuth0Config(configPath, host).Ok?
    requires var config := LoadAuth0Config(configPath, host).value;
      "client_id" in config && "redirect_uri" in config
    ensures var config := LoadAuth0Config(configPath, host).value;
      var q := UrlEncode(LoginParams(config["client_id"], config["redirect_uri"], token));
      && Auth0Ui(AppAuth0(token, configPath).ui, host, freshToken, Query(None, None), render)
         == Ok(LoginScript(ReplaceScript("https://" + config["domain"].s + "/authorize?" + q)))
      && FirstValue(ParseQsl(q), "state") == Some(token)
  {
    var ui := UiWrapper(configPath, Some(token));
    var config := LoadAuth0Config(configPath, host).value;
    LoginRedirect(ui, host, freshToken, Query(None, None), render);
  }

  /** A callback that echoes the application's token renders the page; one
      with any other non-empty state gets the CSRF error. */
  lemma CallbackChecksToken<T>(token: string, configPath: Option<string>, host: Host,
                               freshToken: string, render: Query -> T, code: string, other: string)
    requires token != "" && code != "" && other != "" && other != token
    requires LoadAuth0Config(configPath, host).Ok?
    ensures Auth0Ui(AppAuth0(token, configPath).ui, host, freshToken, Query(Some(code), Some(token)), render)
            == Ok(Protected(render(Query(Some(code), Some(token)))))
    ensures Auth0Ui(AppAuth0(token, configPath).ui, host, freshToken, Query(Some(code), Some(other)), render)
            == Ok(CsrfError(CsrfMessage))
  {
  }
}
