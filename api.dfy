/**
 * The API client of src/main.rs: the connection settings, the scheme that
 * `get_config` puts in front of the server, and the authenticated JSON POST
 * that `build_post_request` prepares.
 */
module Api {
  import opened Base

  /** The settings stored in config.toml. `timeout` is a poll count. */
  datatype Config = Config(server: string, secure: bool, apikey: string, timeout: nat, location: string)

  const Https := "https://"
  const Http := "http://"

  /** `get_config`'s last step: prefix the server with the scheme the `secure` flag selects. */
  function ApplyScheme(raw: Config): (c: Config)
    ensures c == raw.(server := c.server)
    ensures SchemeOf(c.server) == Some((raw.secure, raw.server))
  {
    var prefix := if raw.secure then Https else Http;
    var c := raw.(server := prefix + raw.server);
    assert c.server[..|prefix|] == prefix;
    assert Https[..|Http|][4] != Http[4];
    c
  }

  /** Reads a server URL back into its scheme flag and the rest, when it starts with one of the two schemes. */
  function SchemeOf(url: string): Option<(bool, string)>
  {
    if |url| >= |Https| && url[..|Https|] == Https then Some((true, url[|Https|..]))
    else if |url| >= |Http| && url[..|Http|] == Http then Some((false, url[|Http|..]))
    else None
  }

  /** Two configurations that differ in server or scheme never end up with the same server URL. */
  lemma ApplySchemeInjective(a: Config, b: Config)
    requires ApplyScheme(a).server == ApplyScheme(b).server
    ensures a.secure == b.secure && a.server == b.server
  {
    assert SchemeOf(ApplyScheme(a).server) == SchemeOf(ApplyScheme(b).server);
  }

  datatype Verb = Post | Get

  /** An HTTP request as the program hands it to the client library. */
  datatype Request = Request(verb: Verb, url: string, headers: seq<(string, string)>, body: Option<string>)
  {
    /** `RequestBuilder::header`: one more header line. */
    function WithHeader(name: string, value: string): Request
    {
      this.(headers := headers + [(name, value)])
    }

    /** `RequestBuilder::body`. */
    function WithBody(text: string): Request
    {
      this.(body := Some(text))
    }
  }

  /** The value of the first header line named `name`. */
  function HeaderValue(headers: seq<(string, string)>, name: string): (r: Option<string>)
    ensures r.Some? <==> exists i :: 0 <= i < |headers| && headers[i].0 == name
  {
    if headers == [] then None
    else if headers[0].0 == name then Some(headers[0].1)
    else HeaderValue(headers[1..], name)
  }

  /**
   * `r` is a call of the remote operation `apicall`: a POST to
   * `<server>/api/<apicall>` carrying exactly the JSON content headers and the
   * bearer token of the configured key.
   */
  predicate IsApiCall(r: Request, cfg: Config, apicall: string)
  {
    && r.verb == Post
    && r.url == cfg.server + "/api/" + apicall
    && |r.headers| == 3
    && HeaderValue(r.headers, "Content-Type") == Some("application/json")
    && HeaderValue(r.headers, "Accept") == Some("application/json")
    && HeaderValue(r.headers, "authorization") == Some("Bearer " + cfg.apikey)
  }

  /**
   * The request `build_post_request` yields for `apicall`: the headers in the
   * order they are added, and no body yet.
   */
  function PostRequest(apicall: string, cfg: Config): (r: Request)
    ensures IsApiCall(r, cfg, apicall) && r.body == None
  {
    var headers := [
      ("Content-Type", "application/json"),
      ("authorization", "Bearer " + cfg.apikey),
      ("Accept", "application/json")];
    assert HeaderValue(headers[2..], "Accept") == Some("application/json");
    Request(Post, cfg.server + "/api/" + apicall, headers, None)
  }

  /** `build_post_request`: the POST for `apicall`, built up one header at a time. */
  method BuildPostRequest(apicall: string, cfg: Config) returns (post: Request)
    ensures post == PostRequest(apicall, cfg)
    ensures IsApiCall(post, cfg, apicall) && post.body == None
  {
    post := Request(Post, cfg.server + "/api/" + apicall, [], None);
    post := post.WithHeader("Content-Type", "application/json");
    post := post.WithHeader("authorization", "Bearer " + cfg.apikey);
    post := post.WithHeader("Accept", "application/json");
  }
}
