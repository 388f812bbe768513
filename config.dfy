/** load_auth0_config: the provider settings, read from the `auth0` section
    of a YAML file when a path is given and exists, otherwise from five
    environment variables; loading fails closed when no domain results. */
module Config {
  import opened Values

  /** What load_auth0_config sees of the host. `files` holds the paths that
      exist, each with the `auth0` section of its YAML document (the empty
      mapping when the document has none); `env` is the process
      environment. */
  datatype Host = Host(files: map<string, Mapping>, env: map<string, string>)

  /** `os.getenv(name)` */
  function GetEnv(env: map<string, string>, name: string): Value {
    if name in env then Text(env[name]) else Null
  }

  /** `config_path and os.path.exists(config_path)` */
  predicate UsesFile(path: Option<string>, host: Host) {
    NonEmpty(path) && path.value in host.files
  }

  /** The keys of a configuration read from the environment. */
  const EnvKeys: set<string> := {"domain", "client_id", "client_secret", "redirect_uri", "audience"}

  /** The mapping before it is validated. */
  function ResolveConfig(path: Option<string>, host: Host): Mapping {
    if UsesFile(path, host) then
      host.files[path.value]
    else
      map[
        "domain" := GetEnv(host.env, "AUTH0_DOMAIN"),
        "client_id" := GetEnv(host.env, "AUTH0_CLIENT_ID"),
        "client_secret" := GetEnv(host.env, "AUTH0_CLIENT_SECRET"),
        "redirect_uri" := GetEnv(host.env, "AUTH0_REDIRECT_URI"),
        "audience" := GetEnv(host.env, "AUTH0_AUDIENCE")
      ]
  }

  /** `load_auth0_config(config_path)` */
  function LoadAuth0Config(path: Option<string>, host: Host): (r: Result<Mapping>)
    // the file is read only when a non-empty path names an existing file
    ensures UsesFile(path, host) ==>
      (r.Err? <==> !Truthy(host.files[path.value], "domain")) &&
      (r.Ok? ==> r.value == host.files[path.value])
    // otherwise exactly the five environment-derived keys
    ensures !UsesFile(path, host) ==>
      (r.Err? <==> "AUTH0_DOMAIN" !in host.env || host.env["AUTH0_DOMAIN"] == "") &&
      (r.Ok? ==> r.value.Keys == EnvKeys &&
                 r.value["domain"] == Text(host.env["AUTH0_DOMAIN"]) &&
                 r.value["client_id"] == GetEnv(host.env, "AUTH0_CLIENT_ID") &&
                 r.value["client_secret"] == GetEnv(host.env, "AUTH0_CLIENT_SECRET") &&
                 r.value["redirect_uri"] == GetEnv(host.env, "AUTH0_REDIRECT_URI") &&
                 r.value["audience"] == GetEnv(host.env, "AUTH0_AUDIENCE"))
    // fail closed: the only error is a missing domain, and a loaded
    // configuration always has a non-empty domain
    ensures r.Err? ==> r.error == DomainNotConfigured
    ensures r.Ok? ==> Truthy(r.value, "domain")
  {
    var config := ResolveConfig(path, host);
    if !Truthy(config, "domain") then Err(DomainNotConfigured) else Ok(config)
  }
}
