/**
 * The catch-all `GET *` handler of the combined worker, which serves the built front end:
 * it rewrites the request path for single-page-app routing, derives the storage key, and
 * picks the `Content-Type` and `Cache-Control` headers. The asset manifest and the set of
 * keys present in the key-value store are parameters; the asset bytes are not modelled.
 */
module StaticAssets {

  /** `s.includes(t)`: `t` occurs in `s` at some position. */
  predicate Includes(s: string, t: string)
    decreases |s|
  {
    |t| <= |s| && (s[..|t|] == t || Includes(s[1..], t))
  }

  /** `s.endsWith(t)`. */
  predicate EndsWith(s: string, t: string) {
    |t| <= |s| && s[|s| - |t|..] == t
  }

  /** A one-character string is included exactly when the character occurs. */
  lemma {:induction false} IncludesChar(s: string, c: char)
    ensures Includes(s, [c]) <==> c in s
  {
    if s != [] {
      IncludesChar(s[1..], c);
      assert s == [s[0]] + s[1..];
    }
  }

  /** Where `t` occurs in `s`, the last character of `t` occurs at index `|t| - 1` or later. */
  lemma {:induction false} IncludesLastChar(s: string, t: string)
    requires |t| > 0 && Includes(s, t)
    ensures t[|t| - 1] in s[|t| - 1..]
  {
    if s[..|t|] == t {
      assert s[|t| - 1] == t[|t| - 1];
    } else {
      IncludesLastChar(s[1..], t);
      assert s[1..][|t| - 1..] == s[|t|..];
    }
  }

  /**
   * The path that is looked up: `/` becomes `/index.html`, and so does every path without a
   * `.` (a client-side route); a path with a `.` is kept.
   */
  function RewritePath(path: string): (r: string)
    ensures '.' in r
    ensures '.' in path ==> r == path
    ensures '.' !in path ==> r == "/index.html"
  {
    var p := if path == "/" then "/index.html" else path;
    IncludesChar(p, '.');
    assert '.' in "/index.html" by { assert "/index.html"[6] == '.'; }
    if !Includes(p, ".") && p != "/" then "/index.html" else p
  }

  /** `pathname.substring(1)`: the path without its first character. */
  function AssetKey(pathname: string): (key: string)
    ensures |pathname| > 0 ==> [pathname[0]] + key == pathname
    ensures |pathname| == 0 ==> key == ""
  {
    if |pathname| == 0 then "" else pathname[1..]
  }

  /** Content types by suffix, in the order the handler tests them. */
  const ContentTypes: seq<(string, string)> := [
    (".html", "text/html"),
    (".js", "application/javascript"),
    (".css", "text/css"),
    (".json", "application/json"),
    (".png", "image/png"),
    (".jpg", "image/jpeg"),
    (".jpeg", "image/jpeg"),
    (".svg", "image/svg+xml"),
    (".ico", "image/x-icon")]

  const DefaultContentType := "text/plain"

  /** The suffix at index `i` is the first in `table` that `path` ends with. */
  predicate FirstSuffixAt(table: seq<(string, string)>, path: string, i: int) {
    && 0 <= i < |table|
    && EndsWith(path, table[i].0)
    && forall j :: 0 <= j < i ==> !EndsWith(path, table[j].0)
  }

  /** The type of the first entry of `table` whose suffix ends `path`, or the default. */
  function FirstMatch(table: seq<(string, string)>, path: string): string {
    if table == [] then DefaultContentType
    else if EndsWith(path, table[0].0) then table[0].1
    else FirstMatch(table[1..], path)
  }

  /** `FirstMatch` answers with the entry of the first matching suffix, or the default when none matches. */
  lemma {:induction false} FirstMatchMeaning(table: seq<(string, string)>, path: string)
    ensures var t := FirstMatch(table, path);
      || (exists i :: FirstSuffixAt(table, path, i) && t == table[i].1)
      || ((forall i :: 0 <= i < |table| ==> !EndsWith(path, table[i].0)) && t == DefaultContentType)
  {
    if table == [] {
    } else if EndsWith(path, table[0].0) {
      assert FirstSuffixAt(table, path, 0);
    } else {
      var t := FirstMatch(table[1..], path);
      FirstMatchMeaning(table[1..], path);
      if i :| FirstSuffixAt(table[1..], path, i) && t == table[1..][i].1 {
        assert FirstSuffixAt(table, path, i + 1);
      } else {
        forall i | 1 <= i < |table| ensures !EndsWith(path, table[i].0) {
          assert table[1..][i - 1] == table[i];
        }
      }
    }
  }

  /** The handler's `if`/`else if` chain. */
  function ContentType(pathname: string): string {
    if EndsWith(pathname, ".html") then "text/html"
    else if EndsWith(pathname, ".js") then "application/javascript"
    else if EndsWith(pathname, ".css") then "text/css"
    else if EndsWith(pathname, ".json") then "application/json"
    else if EndsWith(pathname, ".png") then "image/png"
    else if EndsWith(pathname, ".jpg") || EndsWith(pathname, ".jpeg") then "image/jpeg"
    else if EndsWith(pathname, ".svg") then "image/svg+xml"
    else if EndsWith(pathname, ".ico") then "image/x-icon"
    else DefaultContentType
  }

  /** The chain is the table lookup: the type of the first listed suffix that matches. */
  lemma ContentTypeIsFirstMatch(pathname: string)
    ensures ContentType(pathname) == FirstMatch(ContentTypes, pathname)
  {
    var t := ContentTypes;
    assert t[0] == (".html", "text/html") && t[1] == (".js", "application/javascript");
    assert t[2] == (".css", "text/css") && t[3] == (".json", "application/json");
    assert t[4] == (".png", "image/png") && t[5] == (".jpg", "image/jpeg") && t[6] == (".jpeg", "image/jpeg");
    assert t[7] == (".svg", "image/svg+xml") && t[8] == (".ico", "image/x-icon");
    FirstMatchMeaning(t, pathname);
  }

  /** A path none of whose suffixes is listed is served as plain text. */
  lemma UnlistedSuffixIsPlainText(pathname: string)
    ensures ContentType(pathname) == DefaultContentType <==>
      forall i :: 0 <= i < |ContentTypes| ==> !EndsWith(pathname, ContentTypes[i].0)
  {
    var t := ContentTypes;
    var none := !EndsWith(pathname, ".html") && !EndsWith(pathname, ".js") && !EndsWith(pathname, ".css")
      && !EndsWith(pathname, ".json") && !EndsWith(pathname, ".png") && !EndsWith(pathname, ".jpg")
      && !EndsWith(pathname, ".jpeg") && !EndsWith(pathname, ".svg") && !EndsWith(pathname, ".ico");
    assert ContentType(pathname) == DefaultContentType <==> none;
    assert t[0].0 == ".html" && t[1].0 == ".js" && t[2].0 == ".css";
    assert t[3].0 == ".json" && t[4].0 == ".png" && t[5].0 == ".jpg";
    assert t[6].0 == ".jpeg" && t[7].0 == ".svg" && t[8].0 == ".ico";
  }

  const LongCache := "public, max-age=31536000"
  const ShortCache := "public, max-age=3600"

  /** A year for anything under `/assets/` (hashed build output), an hour otherwise. */
  function CacheControl(pathname: string): (c: string)
    ensures c == LongCache || c == ShortCache
    ensures c == LongCache <==> Includes(pathname, "/assets/")
  {
    if Includes(pathname, "/assets/") then LongCache else ShortCache
  }

  /** What the handler answers: a stored object with its headers, or the text `Not Found` with 404. */
  datatype StaticResponse = Asset(key: string, contentType: string, cacheControl: string) | NotFoundText {
    function Code(): int { if Asset? then 200 else 404 }
  }

  const IndexKey := "index.html"

  /**
   * `GET *` for a request path. `manifest` holds the keys of the build's asset manifest and
   * `stored` the keys for which the key-value store returns an object. A key in both is
   * served with its own headers; anything else falls back to `index.html`, or 404 if even
   * that is missing.
   */
  function ServeStatic(path: string, manifest: set<string>, stored: set<string>): (r: StaticResponse)
    ensures r.Asset? ==> r.key in stored && (r.key in manifest || r.key == IndexKey)
    ensures r.NotFoundText? <==> IndexKey !in stored && AssetKey(RewritePath(path)) !in manifest * stored
    ensures var p := RewritePath(path);
      AssetKey(p) in manifest * stored ==> r == Asset(AssetKey(p), ContentType(p), CacheControl(p))
    ensures AssetKey(RewritePath(path)) !in manifest * stored && IndexKey in stored ==>
      r == Asset(IndexKey, "text/html", ShortCache)
  {
    var pathname := RewritePath(path);
    var key := AssetKey(pathname);
    if key in manifest && key in stored then Asset(key, ContentType(pathname), CacheControl(pathname))
    else if IndexKey in stored then Asset(IndexKey, "text/html", ShortCache)
    else NotFoundText
  }

  /** The root is served as `index.html`. */
  lemma RootIsIndex(manifest: set<string>, stored: set<string>)
    ensures ServeStatic("/", manifest, stored) == ServeStatic("/index.html", manifest, stored)
  {
  }

  /** An asset path keeps its name, and its key is the path without the leading `/`. */
  lemma AssetPathKey(path: string)
    requires '.' in path && |path| > 0 && path[0] == '/'
    ensures RewritePath(path) == path && "/" + AssetKey(RewritePath(path)) == path
  {
  }

  /** A key missing from the manifest or the store falls back to `index.html` as HTML. */
  lemma MissingAssetFallsBack(path: string, manifest: set<string>, stored: set<string>)
    requires AssetKey(RewritePath(path)) !in manifest * stored
    requires IndexKey in stored
    ensures ServeStatic(path, manifest, stored) == Asset(IndexKey, "text/html", ShortCache)
  {
  }

  /**
   * A client-side route (a path without `.`) always gets the application shell:
   * `index.html` as HTML with the one-hour cache, or 404.
   */
  lemma ClientRoutesGetTheShell(path: string, manifest: set<string>, stored: set<string>)
    requires '.' !in path
    ensures var r := ServeStatic(path, manifest, stored);
      r == Asset(IndexKey, "text/html", ShortCache) || (r == NotFoundText && IndexKey !in stored)
  {
    IndexHeaders();
  }

  /** `/index.html` has the key `index.html`, is HTML and is cached for an hour. */
  lemma IndexHeaders()
    ensures AssetKey("/index.html") == IndexKey
    ensures ContentType("/index.html") == "text/html" && CacheControl("/index.html") == ShortCache
  {
    assert EndsWith("/index.html", ".html");
    assert !Includes("/index.html", "/assets/") by {
      if Includes("/index.html", "/assets/") {
        IncludesLastChar("/index.html", "/assets/");
      }
    }
  }
}
