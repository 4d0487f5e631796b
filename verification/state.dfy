/** Engine URL construction from `internal/state.go`: normalising a
    user-supplied engine address into a WebSocket URL with a default port,
    and deriving the engine's HTTP metadata URL for an app. */
module EngineState {
  import opened Strings

  const DefaultPort := ":9076"
  const TtlPath := "/app/engineData/ttl/"

  /** The engine address with a WebSocket scheme: `ws://` and `wss://`
      addresses are kept as they are, anything else gets `ws://` in front. */
  function WithScheme(engine: string): (url: string)
    ensures StartsWith(engine, "wss://") || StartsWith(engine, "ws://") ==> url == engine
    ensures !(StartsWith(engine, "wss://") || StartsWith(engine, "ws://")) ==> url == "ws://" + engine
  {
    if StartsWith(engine, "wss://") then engine
    else if StartsWith(engine, "ws://") then engine
    else "ws://" + engine
  }

  /** A URL that already has a WebSocket scheme and at least two colons
      (the scheme's and a port's, or more): the shape every tidied URL has. */
  predicate Tidy(url: string)
  {
    (StartsWith(url, "ws://") || StartsWith(url, "wss://")) && Occurrences(url, ':') >= 2
  }

  lemma SchemeColon(url: string)
    requires StartsWith(url, "ws://") || StartsWith(url, "wss://")
    ensures Occurrences(url, ':') >= 1
  {
    if StartsWith(url, "ws://") {
      OccurrencesAppend("ws://", url[5..], ':');
      assert url == "ws://" + url[5..];
    } else {
      OccurrencesAppend("wss://", url[6..], ':');
      assert url == "wss://" + url[6..];
    }
  }

  /** The address after scheme normalisation, with the default engine port
      appended when the scheme's colon is the only one (Go tests this as
      `strings.Split(url, ":")` having exactly two pieces). */
  function TidyUpEngineUrl(engine: string): (url: string)
    ensures Tidy(url)
    ensures StartsWith(url, WithScheme(engine))
    ensures url == WithScheme(engine) || url == WithScheme(engine) + DefaultPort
  {
    var url := WithScheme(engine);
    SchemeColon(url);
    if |Split(url, ':')| == 2 then
      OccurrencesAppend(url, DefaultPort, ':');
      assert (url + DefaultPort)[..|url|] == url;
      url + DefaultPort
    else url
  }

  /** The default port is appended exactly when the scheme-prefixed
      address contains a single colon. */
  lemma TidyUpAddsPortIffOneColon(engine: string)
    ensures TidyUpEngineUrl(engine) == WithScheme(engine) + DefaultPort
            <==> Occurrences(WithScheme(engine), ':') == 1
  {
  }

  /** Tidying is idempotent: a tidied URL already has its scheme and more
      than one colon, so a second pass changes nothing. */
  lemma TidyUpIdempotent(engine: string)
    ensures TidyUpEngineUrl(TidyUpEngineUrl(engine)) == TidyUpEngineUrl(engine)
  {
    var url := TidyUpEngineUrl(engine);
    assert WithScheme(url) == url;
  }

  /** Every tidied URL is a fixed point of tidying, and only those are. */
  lemma TidyUpFixedPoints(url: string)
    ensures TidyUpEngineUrl(url) == url <==> Tidy(url)
  {
    if TidyUpEngineUrl(url) == url {
      assert Tidy(TidyUpEngineUrl(url));
    }
  }

  /** The WebSocket URL to dial: the tidied engine URL followed by the
      session-TTL path and the TTL. */
  function BuildWebSocketUrl(engine: string, ttl: string): (url: string)
    ensures StartsWith(url, "ws://") || StartsWith(url, "wss://")
    ensures EndsWith(url, TtlPath + ttl)
    ensures url[..|url| - |TtlPath + ttl|] == TidyUpEngineUrl(engine)
  {
    var base := TidyUpEngineUrl(engine);
    var url := base + (TtlPath + ttl);
    ConcatParts(base, TtlPath + ttl);
    StartsWithEitherAppend(base, TtlPath + ttl, "ws://", "wss://");
    url
  }

  /** A WebSocket URL with its scheme turned into the matching HTTP
      scheme; Go does this with two unlimited `strings.Replace` calls. */
  function HttpScheme(url: string): string
  {
    ReplaceAll(ReplaceAll(url, "wss://", "https://"), "ws://", "http://")
  }

  /** The tidied engine URL over HTTP(S). */
  function HttpBase(engine: string): string
  {
    HttpScheme(TidyUpEngineUrl(engine))
  }

  /** `ws://` in front of `s` survives the `wss://` replacement. */
  lemma WsSurvivesWssReplace(rest: string)
    ensures StartsWith(ReplaceAll("ws://" + rest, "wss://", "https://"), "ws://")
  {
    var t := "ws://" + rest;
    if |t| >= 6 {
      assert t[..6] != "wss://" by { assert t[..6][2] == ':'; }
      assert t[1..] == "s://" + rest;
      ReplaceAllSkipsPrefix("s://", rest, "wss://", "https://");
      var r := ReplaceAll(t, "wss://", "https://");
      assert r == ['w'] + ("s://" + ReplaceAll(rest, "wss://", "https://"));
      assert r[..5] == "ws://";
    }
  }

  /** A `wss://` URL becomes an `https://` one. */
  lemma WssBecomesHttps(url: string)
    requires StartsWith(url, "wss://")
    ensures StartsWith(HttpScheme(url), "https://")
  {
    var rest := url[6..];
    assert url[..6] == "wss://";
    var e1 := ReplaceAll(url, "wss://", "https://");
    assert e1 == "https://" + ReplaceAll(rest, "wss://", "https://");
    ReplaceAllSkipsPrefix("https://", ReplaceAll(rest, "wss://", "https://"), "ws://", "http://");
    var e2 := ReplaceAll(e1, "ws://", "http://");
    assert e2[..8] == "https://";
  }

  /** A `ws://` URL becomes an `http://` one. */
  lemma WsBecomesHttp(url: string)
    requires StartsWith(url, "ws://")
    ensures StartsWith(HttpScheme(url), "http://")
  {
    var rest := url[5..];
    assert url == "ws://" + rest;
    WsSurvivesWssReplace(rest);
    var e1 := ReplaceAll(url, "wss://", "https://");
    assert e1[..5] == "ws://";
    var e2 := ReplaceAll(e1, "ws://", "http://");
    assert e2 == "http://" + ReplaceAll(e1[5..], "ws://", "http://");
    assert e2[..7] == "http://";
  }

  /** The HTTP base starts with `https://` exactly when the tidied URL uses
      `wss://`, and with `http://` otherwise. */
  lemma HttpBaseScheme(engine: string)
    ensures StartsWith(TidyUpEngineUrl(engine), "wss://") ==> StartsWith(HttpBase(engine), "https://")
    ensures !StartsWith(TidyUpEngineUrl(engine), "wss://") ==> StartsWith(HttpBase(engine), "http://")
  {
    var url := TidyUpEngineUrl(engine);
    if StartsWith(url, "wss://") {
      WssBecomesHttps(url);
    } else {
      WsBecomesHttp(url);
    }
  }

  /** Whatever follows the HTTP base, the URL keeps its scheme. */
  lemma HttpBaseAppend(engine: string, tail: string)
    ensures StartsWith(HttpBase(engine) + tail, HttpBase(engine))
    ensures EndsWith(HttpBase(engine) + tail, tail)
    ensures StartsWith(HttpBase(engine) + tail, "https://") <==> StartsWith(TidyUpEngineUrl(engine), "wss://")
    ensures StartsWith(HttpBase(engine) + tail, "https://") || StartsWith(HttpBase(engine) + tail, "http://")
  {
    var base := HttpBase(engine);
    var url := base + tail;
    HttpBaseScheme(engine);
    ConcatParts(base, tail);
    StartsWithEitherAppend(base, tail, "https://", "http://");
    if StartsWith(url, "https://") {
      assert url[4] == "https://"[4];
      assert url[..7][4] != "http://"[4];
    }
  }

  /** The app metadata URL, or the empty string when no app is given.
      `escape` stands for Go's `url.QueryEscape`, whose behaviour is not
      part of this model. */
  function BuildMetadataUrl(engine: string, appId: string, escape: string -> string): (url: string)
    ensures url == "" <==> appId == ""
    ensures appId != "" ==> StartsWith(url, HttpBase(engine))
    ensures appId != "" ==> EndsWith(url, "/v1/apps/" + escape(appId) + "/data/metadata")
    ensures appId != "" ==> url[|HttpBase(engine)|..] == "/v1/apps/" + escape(appId) + "/data/metadata"
    ensures appId != "" ==> (StartsWith(url, "https://") <==> StartsWith(TidyUpEngineUrl(engine), "wss://"))
    ensures appId != "" ==> (StartsWith(url, "https://") || StartsWith(url, "http://"))
  {
    if appId == "" then ""
    else
      var tail := "/v1/apps/" + escape(appId) + "/data/metadata";
      HttpBaseAppend(engine, tail);
      HttpBase(engine) + tail
  }
}
