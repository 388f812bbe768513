/** Python values as the login flow sees them: configuration entries, JSON
    bodies, optional query parameters, and the exceptions the flow raises. */
module Values {

  datatype Option<+T> = None | Some(value: T)

  /** A value read from a configuration mapping or a JSON object: Python's
      None or a str. */
  datatype Value = Null | Text(s: string)

  /** A Python dict from str keys (configuration, token response, profile). */
  type Mapping = map<string, Value>

  /** The user profile returned by the provider's userinfo endpoint. */
  type Profile = Mapping

  /** Python truthiness of `m.get(key)`: the key is present and holds a
      non-empty str. */
  predicate Truthy(m: Mapping, key: string) {
    key in m && m[key].Text? && m[key].s != ""
  }

  /** Python truthiness of an optional str (None and "" are false). */
  predicate NonEmpty(o: Option<string>) {
    o.Some? && o.value != ""
  }

  /** `str(v)`, also what an f-string inserts: None prints as "None". */
  function Str(v: Value): string {
    match v
    case Null => "None"
    case Text(s) => s
  }

  /** The exceptions the flow can raise. */
  datatype AuthError =
    | DomainNotConfigured           // Auth0Error("Auth0 domain não configurado!")
    | CodeNotFound                  // Auth0Error: no authorization code in the URL
    | TokenExchangeFailed(text: string)  // Auth0Error carrying the token response text
    | AccessTokenMissing            // Auth0Error: no access token returned
    | KeyError(key: string)         // `config[key]` on a mapping without that key
    | HttpError(status: int)        // requests' raise_for_status on a 4xx or 5xx reply
    | TypeError                     // urllib.parse.quote applied to None

  datatype Result<+T> = Ok(value: T) | Err(error: AuthError)
}
