/** tinyweb_on_request_get and the helpers it calls (_get_content_type,
    _404_not_found, _on_send_file, write_uv_data): which response a GET request
    receives. */
module Router {
  import opened Bytes
  import opened Decimal
  import opened Response

  /** snprintf into a 1024-byte buffer keeps at most 1023 bytes and the NUL. */
  const LIMIT: nat := 1023

  const DOT: byte := 46

  /** Status lines. */
  const OK: seq<byte> := [50, 48, 48, 32, 79, 75]  // "200 OK"
  const NOT_FOUND: seq<byte> := [52, 48, 52, 32, 78, 111, 116, 32, 70, 111, 117, 110, 100]  // "404 Not Found"

  /** Content types. */
  const HTML: seq<byte> := [116, 101, 120, 116, 47, 104, 116, 109, 108]  // "text/html"
  const JAVASCRIPT: seq<byte> := [116, 101, 120, 116, 47, 106, 97, 118, 97, 115, 99, 114, 105, 112, 116]  // "text/javascript"
  const CSS: seq<byte> := [116, 101, 120, 116, 47, 99, 115, 115]  // "text/css"
  const JPEG: seq<byte> := [105, 109, 97, 103, 101, 47, 106, 112, 101, 103]  // "image/jpeg"
  const PNG: seq<byte> := [105, 109, 97, 103, 101, 47, 112, 110, 103]  // "image/png"
  const GIF: seq<byte> := [105, 109, 97, 103, 101, 47, 103, 105, 102]  // "image/gif"
  const PLAIN: seq<byte> := [116, 101, 120, 116, 47, 112, 108, 97, 105, 110]  // "text/plain"
  const OCTET_STREAM: seq<byte> := [97, 112, 112, 108, 105, 99, 97, 116, 105, 111, 110, 47, 111, 99, 116, 101, 116, 45, 115, 116, 114, 101, 97, 109]  // "application/octet-stream"

  /** File-name extensions that have a content type of their own. */
  const EXT_HTML: seq<byte> := [104, 116, 109, 108]  // "html"
  const EXT_HTM: seq<byte> := [104, 116, 109]  // "htm"
  const EXT_JS: seq<byte> := [106, 115]  // "js"
  const EXT_CSS: seq<byte> := [99, 115, 115]  // "css"
  const EXT_JPEG: seq<byte> := [106, 112, 101, 103]  // "jpeg"
  const EXT_JPG: seq<byte> := [106, 112, 103]  // "jpg"
  const EXT_PNG: seq<byte> := [112, 110, 103]  // "png"
  const EXT_GIF: seq<byte> := [103, 105, 102]  // "gif"
  const EXT_TXT: seq<byte> := [116, 120, 116]  // "txt"

  /** The two paths with a page of their own. */
  const ROOT: seq<byte> := [47]  // "/"
  const ROOT_404: seq<byte> := [47, 52, 48, 52]  // "/404"

  /** Page texts. */
  const WELCOME: seq<byte> := [87, 101, 108, 99, 111, 109, 101, 32, 116, 111, 32, 116, 105, 110, 121, 119, 101, 98]  // "Welcome to tinyweb"
  const CANNED_404: seq<byte> := [60, 104, 51, 62, 52, 48, 52, 32, 80, 97, 103, 101, 32, 78, 111, 116, 32, 70, 111, 117, 110, 100, 60, 104, 51, 62]  // "<h3>404 Page Not Found<h3>"
  const NOT_FOUND_HEAD: seq<byte> := [60, 104, 49, 62, 52, 48, 52, 32, 78, 111, 116, 32, 70, 111, 117, 110, 100, 60, 47, 104, 49, 62, 60, 112, 62]  // "<h1>404 Not Found</h1><p>"
  const PARA_END: seq<byte> := [60, 47, 112, 62]  // "</p>"
  const ECHO_HEAD: seq<byte> := [60, 104, 49, 62, 116, 105, 110, 121, 119, 101, 98, 60, 47, 104, 49, 62, 60, 112, 62, 112, 97, 116, 104, 105, 110, 102, 111, 58, 32]  // "<h1>tinyweb</h1><p>pathinfo: "
  const ECHO_MIDDLE: seq<byte> := [60, 47, 112, 62, 60, 112, 62, 113, 117, 101, 114, 121, 32, 115, 116, 105, 114, 110, 103, 58, 32]  // "</p><p>query stirng: "

  /** What glibc's printf writes for a NULL `%s` argument. */
  const NULL_TEXT: seq<byte> := [40, 110, 117, 108, 108, 41]  // "(null)"

  /** The bytes fread delivers for a file whose size ftell reports as an `int`. */
  type FileBytes = s: seq<byte> | |s| <= INT_MAX

  /** What the server is started with: the document root (`_doc_root_path`,
      NULL when not given) and the file system, as the bytes stored under each
      path (None when fopen fails). */
  datatype Config = Config(docRoot: Option<seq<byte>>, readAll: seq<byte> -> Option<FileBytes>)

  /** The document root tinyweb_start keeps of its `doc_root_path` argument (a C
      string, or None for NULL): only a non-empty one, so a configured root is
      never empty. */
  function StartDocRoot(docRootPath: Option<seq<byte>>): (r: Option<seq<byte>>)
    requires docRootPath.Some? ==> NUL !in docRootPath.value
    ensures r.Some? <==> docRootPath.Some? && docRootPath.value != []
    ensures r.Some? ==> r == docRootPath && |r.value| > 0 && NUL !in r.value
  {
    if docRootPath.Some? && docRootPath.value != [] then docRootPath else None
  }

  /** What a handler asks the event loop to do: queue a write, or close the
      connection. */
  datatype Action = Write(bytes: seq<byte>) | Close

  /** The reference table of content types. */
  const CONTENT_TYPES: map<seq<byte>, seq<byte>> := map[
    EXT_HTML := HTML, EXT_HTM := HTML, EXT_JS := JAVASCRIPT, EXT_CSS := CSS,
    EXT_JPEG := JPEG, EXT_JPG := JPEG, EXT_PNG := PNG, EXT_GIF := GIF, EXT_TXT := PLAIN]

  /** _get_content_type: the content type of an extension (compared exactly,
      case included). */
  function ContentType(ext: seq<byte>): (t: seq<byte>)
    ensures NUL !in t && CR !in t && SEMICOLON !in t
  {
    TextTypesDelimited();
    BinaryTypesDelimited();
    if ext == EXT_HTML || ext == EXT_HTM then HTML
    else if ext == EXT_JS then JAVASCRIPT
    else if ext == EXT_CSS then CSS
    else if ext == EXT_JPEG || ext == EXT_JPG then JPEG
    else if ext == EXT_PNG then PNG
    else if ext == EXT_GIF then GIF
    else if ext == EXT_TXT then PLAIN
    else OCTET_STREAM
  }

  /** Every content type is a C string without CR or ';'. */
  lemma TextTypesDelimited()
    ensures NUL !in HTML && CR !in HTML && SEMICOLON !in HTML
    ensures NUL !in JAVASCRIPT && CR !in JAVASCRIPT && SEMICOLON !in JAVASCRIPT
    ensures NUL !in CSS && CR !in CSS && SEMICOLON !in CSS
    ensures NUL !in PLAIN && CR !in PLAIN && SEMICOLON !in PLAIN
  {
  }

  lemma BinaryTypesDelimited()
    ensures NUL !in JPEG && CR !in JPEG && SEMICOLON !in JPEG
    ensures NUL !in PNG && CR !in PNG && SEMICOLON !in PNG
    ensures NUL !in GIF && CR !in GIF && SEMICOLON !in GIF
    ensures NUL !in OCTET_STREAM && CR !in OCTET_STREAM && SEMICOLON !in OCTET_STREAM
  {
  }

  /** The if-chain agrees with the table, and every other extension is served
      as application/octet-stream. */
  lemma ContentTypeByTable(ext: seq<byte>)
    ensures ContentType(ext) == if ext in CONTENT_TYPES then CONTENT_TYPES[ext] else OCTET_STREAM
  {
  }

  /** The text after the last '.' of a path (`strrchr(pathinfo, '.') + 1`). */
  function Extension(path: seq<byte>): (e: seq<byte>)
    requires DOT in path
    ensures DOT !in e && |e| < |path|
    ensures path == path[..|path| - |e| - 1] + [DOT] + e
  {
    var i := LastIndexOf(path, DOT).value;
    assert path == path[..i] + [DOT] + path[i + 1..];
    path[i + 1..]
  }

  /** `snprintf(file, sizeof(file), "%s%s", doc_root, pathinfo)`. */
  function FilePath(root: seq<byte>, path: seq<byte>): (f: seq<byte>)
    ensures |f| <= LIMIT && f <= root + path
    ensures |root + path| <= LIMIT ==> f == root + path
  {
    Truncate(root + path, LIMIT)
  }

  /** The body of the page _404_not_found sends. */
  function NotFoundText(path: seq<byte>): (t: seq<byte>)
    requires NUL !in path
    ensures NUL !in t && |t| <= LIMIT && t <= NOT_FOUND_HEAD + path + PARA_END
  {
    TextsHaveNoNul();
    var page := NOT_FOUND_HEAD + path + PARA_END;
    NulFreeJoin(NOT_FOUND_HEAD, path);
    NulFreeJoin(NOT_FOUND_HEAD + path, PARA_END);
    var t := Truncate(page, LIMIT);
    NulFreePrefix(t, page);
    t
  }

  /** The query as `%s` prints it. */
  function QueryText(query: Option<seq<byte>>): seq<byte>
  {
    if query.Some? then query.value else NULL_TEXT
  }

  lemma TextsHaveNoNul()
    ensures NUL !in NOT_FOUND_HEAD && NUL !in PARA_END && NUL !in ECHO_HEAD
    ensures NUL !in ECHO_MIDDLE && NUL !in NULL_TEXT
  {
  }

  lemma NulFreeJoin(a: seq<byte>, b: seq<byte>)
    requires NUL !in a && NUL !in b
    ensures NUL !in a + b
  {
  }

  lemma NulFreePrefix(t: seq<byte>, s: seq<byte>)
    requires t <= s && NUL !in s
    ensures NUL !in t
  {
    assert forall i :: 0 <= i < |t| ==> t[i] == s[i];
  }

  /** The body of the echo page. */
  function EchoText(path: seq<byte>, query: Option<seq<byte>>): (t: seq<byte>)
    requires NUL !in path && (query.Some? ==> NUL !in query.value)
    ensures NUL !in t && |t| <= LIMIT
    ensures t <= ECHO_HEAD + path + ECHO_MIDDLE + QueryText(query) + PARA_END
  {
    TextsHaveNoNul();
    var page := ECHO_HEAD + path + ECHO_MIDDLE + QueryText(query) + PARA_END;
    NulFreeJoin(ECHO_HEAD, path);
    NulFreeJoin(ECHO_HEAD + path, ECHO_MIDDLE);
    NulFreeJoin(ECHO_HEAD + path + ECHO_MIDDLE, QueryText(query));
    NulFreeJoin(ECHO_HEAD + path + ECHO_MIDDLE + QueryText(query), PARA_END);
    var t := Truncate(page, LIMIT);
    NulFreePrefix(t, page);
    t
  }

  /** `format_http_respone(status, type, text, -1, NULL)` on a NUL-terminated text. */
  function Page(status: seq<byte>, contentType: seq<byte>, text: seq<byte>): seq<byte>
    requires NUL !in status && NUL !in contentType && NUL !in text && |text| <= LIMIT
  {
    TerminatedLength(text);
    FormatResponse(status, contentType, Some(text + [NUL]), -1)
  }

  /** write_uv_data: nothing for no data, otherwise one write. */
  function WriteUvData(data: seq<byte>): (acts: seq<Action>)
    ensures |acts| <= 1
    ensures acts == [] <==> data == []
    ensures acts != [] ==> acts[0] == Write(data)
  {
    if data == [] then [] else [Write(data)]
  }

  /** _on_send_file: the file's bytes with status 200, or the 404 page when the
      file cannot be opened. */
  function SendFile(cfg: Config, contentType: seq<byte>, file: seq<byte>, path: seq<byte>): seq<Action>
    requires NUL !in contentType && NUL !in path
  {
    match cfg.readAll(file)
    case Some(data) => WriteUvData(FormatResponse(OK, contentType, Some(data), |data|))
    case None => WriteUvData(Page(NOT_FOUND, HTML, NotFoundText(path)))
  }

  /** tinyweb_on_request_get: a path with a '.' anywhere is a file (or a 404
      without a document root); "/" and "/404" have pages of their own; any
      other path gets the echo page. */
  function OnRequestGet(cfg: Config, path: seq<byte>, query: Option<seq<byte>>): seq<Action>
    requires NUL !in path && (query.Some? ==> NUL !in query.value)
  {
    if DOT in path then
      if cfg.docRoot.Some? then
        SendFile(cfg, ContentType(Extension(path)), FilePath(cfg.docRoot.value, path), path)
      else
        WriteUvData(Page(NOT_FOUND, HTML, NotFoundText(path)))
    else if path == ROOT then
      WriteUvData(Page(OK, HTML, WELCOME))
    else if path == ROOT_404 then
      WriteUvData(Page(NOT_FOUND, HTML, CANNED_404))
    else
      WriteUvData(Page(OK, HTML, EchoText(path, query)))
  }

  /** The file looked up is the document root followed by the path, or its
      first 1023 bytes when that is longer. */
  lemma FilePathIs(root: seq<byte>, path: seq<byte>)
    ensures var f := root + path;
            FilePath(root, path) == if |f| <= LIMIT then f else f[..LIMIT]
  {
    TruncateExact(root + path, LIMIT);
  }

  /** The 404 page is `<h1>404 Not Found</h1><p>` path `</p>`, with the path
      unchanged, or the first 1023 bytes of that. */
  lemma NotFoundTextIs(path: seq<byte>)
    requires NUL !in path
    ensures var page := NOT_FOUND_HEAD + path + PARA_END;
            NotFoundText(path) == if |page| <= LIMIT then page else page[..LIMIT]
  {
    TruncateExact(NOT_FOUND_HEAD + path + PARA_END, LIMIT);
  }

  /** The echo page holds path and query verbatim, or is the first 1023 bytes
      of that text. */
  lemma EchoTextIs(path: seq<byte>, query: Option<seq<byte>>)
    requires NUL !in path && (query.Some? ==> NUL !in query.value)
    ensures var page := ECHO_HEAD + path + ECHO_MIDDLE + QueryText(query) + PARA_END;
            EchoText(path, query) == if |page| <= LIMIT then page else page[..LIMIT]
  {
    TruncateExact(ECHO_HEAD + path + ECHO_MIDDLE + QueryText(query) + PARA_END, LIMIT);
  }

  // ---- What a client receives ----

  /** strlen of a text followed by its terminator is the text's length. */
  lemma TerminatedLength(text: seq<byte>)
    requires NUL !in text
    ensures NUL in text + [NUL] && StrLen(text + [NUL]) == |text|
    ensures (text + [NUL])[..|text|] == text
  {
    var s := text + [NUL];
    assert s[|text|] == NUL;
  }

  /** A page decodes to its status, its type and exactly its text. */
  lemma PageParses(status: seq<byte>, contentType: seq<byte>, text: seq<byte>)
    requires NUL !in status && NUL !in contentType && NUL !in text && |text| <= LIMIT
    requires CR !in status && SEMICOLON !in contentType
    ensures ParseResponse(Page(status, contentType, text)) == Some(Message(status, contentType, |text|, text))
  {
    TerminatedLength(text);
    FormatThenParse(status, contentType, Some(text + [NUL]), -1);
  }

  /** A response that decodes is not empty, so it goes out as one write. */
  lemma OneWrite(data: seq<byte>, m: Message)
    requires ParseResponse(data) == Some(m)
    ensures var acts := WriteUvData(data);
            |acts| == 1 && acts[0].Write? && ParseResponse(acts[0].bytes) == Some(m)
  {
    assert STATUS_PREFIX <= data;
  }

  /** A page goes out as one write that decodes to its status, its type and
      exactly its text. */
  lemma PageReply(acts: seq<Action>, status: seq<byte>, contentType: seq<byte>, text: seq<byte>)
    requires NUL !in status && NUL !in contentType && NUL !in text && |text| <= LIMIT
    requires CR !in status && SEMICOLON !in contentType
    requires acts == WriteUvData(Page(status, contentType, text))
    ensures |acts| == 1 && acts[0].Write?
            && ParseResponse(acts[0].bytes) == Some(Message(status, contentType, |text|, text))
  {
    PageParses(status, contentType, text);
    OneWrite(Page(status, contentType, text), Message(status, contentType, |text|, text));
  }

  /** A file's bytes go out as one write that decodes to status 200, the type
      and exactly those bytes. */
  lemma FileReply(acts: seq<Action>, contentType: seq<byte>, data: FileBytes)
    requires NUL !in contentType && SEMICOLON !in contentType
    requires acts == WriteUvData(FormatResponse(OK, contentType, Some(data), |data|))
    ensures |acts| == 1 && acts[0].Write?
            && ParseResponse(acts[0].bytes) == Some(Message(OK, contentType, |data|, data))
  {
    FormatThenParse(OK, contentType, Some(data), |data|);
    assert data[..|data|] == data;
    OneWrite(FormatResponse(OK, contentType, Some(data), |data|), Message(OK, contentType, |data|, data));
  }

  // ---- Which reply each request gets ----

  lemma FileRouted(cfg: Config, path: seq<byte>, query: Option<seq<byte>>)
    requires NUL !in path && (query.Some? ==> NUL !in query.value)
    requires DOT in path && cfg.docRoot.Some?
    requires cfg.readAll(FilePath(cfg.docRoot.value, path)).Some?
    ensures var data := cfg.readAll(FilePath(cfg.docRoot.value, path)).value;
            OnRequestGet(cfg, path, query) == WriteUvData(FormatResponse(OK, ContentType(Extension(path)), Some(data), |data|))
  {
  }

  lemma NotFoundRouted(cfg: Config, path: seq<byte>, query: Option<seq<byte>>)
    requires NUL !in path && (query.Some? ==> NUL !in query.value)
    requires DOT in path
    requires cfg.docRoot.Some? ==> cfg.readAll(FilePath(cfg.docRoot.value, path)).None?
    ensures OnRequestGet(cfg, path, query) == WriteUvData(Page(NOT_FOUND, HTML, NotFoundText(path)))
  {
  }

  lemma DistinctPaths()
    ensures DOT !in ROOT && DOT !in ROOT_404 && ROOT_404 != ROOT
  {
  }

  /** The statuses, the type and the fixed pages are C strings that the
      decoder can delimit. */
  lemma PageConstants()
    ensures NUL !in OK && CR !in OK && NUL !in NOT_FOUND && CR !in NOT_FOUND
    ensures NUL !in HTML && SEMICOLON !in HTML
    ensures NUL !in WELCOME && |WELCOME| <= LIMIT && NUL !in CANNED_404 && |CANNED_404| <= LIMIT
  {
  }

  lemma WelcomeRouted(cfg: Config, query: Option<seq<byte>>)
    requires query.Some? ==> NUL !in query.value
    ensures OnRequestGet(cfg, ROOT, query) == WriteUvData(Page(OK, HTML, WELCOME))
  {
    DistinctPaths();
  }

  lemma Canned404Routed(cfg: Config, query: Option<seq<byte>>)
    requires query.Some? ==> NUL !in query.value
    ensures OnRequestGet(cfg, ROOT_404, query) == WriteUvData(Page(NOT_FOUND, HTML, CANNED_404))
  {
    DistinctPaths();
  }

  lemma EchoRouted(cfg: Config, path: seq<byte>, query: Option<seq<byte>>)
    requires NUL !in path && (query.Some? ==> NUL !in query.value)
    requires DOT !in path && path != ROOT && path != ROOT_404
    ensures OnRequestGet(cfg, path, query) == WriteUvData(Page(OK, HTML, EchoText(path, query)))
  {
  }

  /** A requested file that exists is sent whole, with status 200 and the
      content type of its extension; the file looked up is the document root
      followed by the path, cut to 1023 bytes. */
  lemma RouteFile(cfg: Config, path: seq<byte>, query: Option<seq<byte>>)
    requires NUL !in path && (query.Some? ==> NUL !in query.value)
    requires DOT in path && cfg.docRoot.Some?
    requires cfg.readAll(FilePath(cfg.docRoot.value, path)).Some?
    ensures var data := cfg.readAll(FilePath(cfg.docRoot.value, path)).value;
            var acts := OnRequestGet(cfg, path, query);
            |acts| == 1 && acts[0].Write?
            && ParseResponse(acts[0].bytes) == Some(Message(OK, ContentType(Extension(path)), |data|, data))
  {
    FileRouted(cfg, path, query);
    FileReply(OnRequestGet(cfg, path, query), ContentType(Extension(path)), cfg.readAll(FilePath(cfg.docRoot.value, path)).value);
  }

  /** A file request with no document root, or for a file that cannot be
      opened, gets status 404 and the not-found page naming the path. */
  lemma RouteFileNotFound(cfg: Config, path: seq<byte>, query: Option<seq<byte>>)
    requires NUL !in path && (query.Some? ==> NUL !in query.value)
    requires DOT in path
    requires cfg.docRoot.Some? ==> cfg.readAll(FilePath(cfg.docRoot.value, path)).None?
    ensures var acts := OnRequestGet(cfg, path, query);
            var text := NotFoundText(path);
            |acts| == 1 && acts[0].Write?
            && ParseResponse(acts[0].bytes) == Some(Message(NOT_FOUND, HTML, |text|, text))
            && (|NOT_FOUND_HEAD + path + PARA_END| <= LIMIT ==> text == NOT_FOUND_HEAD + path + PARA_END)
  {
    NotFoundRouted(cfg, path, query);
    PageReply(OnRequestGet(cfg, path, query), NOT_FOUND, HTML, NotFoundText(path));
    NotFoundTextIs(path);
  }

  /** "/" gets the welcome page. */
  lemma RouteWelcome(cfg: Config, query: Option<seq<byte>>)
    requires query.Some? ==> NUL !in query.value
    ensures var acts := OnRequestGet(cfg, ROOT, query);
            |acts| == 1 && acts[0].Write?
            && ParseResponse(acts[0].bytes) == Some(Message(OK, HTML, |WELCOME|, WELCOME))
  {
    WelcomeRouted(cfg, query);
    PageConstants();
    PageReply(OnRequestGet(cfg, ROOT, query), OK, HTML, WELCOME);
  }

  /** "/404" gets the canned 404 page. */
  lemma RouteCanned404(cfg: Config, query: Option<seq<byte>>)
    requires query.Some? ==> NUL !in query.value
    ensures var acts := OnRequestGet(cfg, ROOT_404, query);
            |acts| == 1 && acts[0].Write?
            && ParseResponse(acts[0].bytes) == Some(Message(NOT_FOUND, HTML, |CANNED_404|, CANNED_404))
  {
    Canned404Routed(cfg, query);
    PageConstants();
    PageReply(OnRequestGet(cfg, ROOT_404, query), NOT_FOUND, HTML, CANNED_404);
  }

  /** Every other path without a '.' gets the echo page, which repeats the path
      and the query verbatim (cut to 1023 bytes). */
  lemma RouteEcho(cfg: Config, path: seq<byte>, query: Option<seq<byte>>)
    requires NUL !in path && (query.Some? ==> NUL !in query.value)
    requires DOT !in path && path != ROOT && path != ROOT_404
    ensures var acts := OnRequestGet(cfg, path, query);
            var text := EchoText(path, query);
            |acts| == 1 && acts[0].Write?
            && ParseResponse(acts[0].bytes) == Some(Message(OK, HTML, |text|, text))
            && (|ECHO_HEAD + path + ECHO_MIDDLE + QueryText(query) + PARA_END| <= LIMIT ==>
                  text == ECHO_HEAD + path + ECHO_MIDDLE + QueryText(query) + PARA_END)
  {
    EchoRouted(cfg, path, query);
    PageReply(OnRequestGet(cfg, path, query), OK, HTML, EchoText(path, query));
    EchoTextIs(path, query);
  }

  /** Every request is answered by exactly one write, of a well-formed response. */
  lemma ExactlyOneWrite(cfg: Config, path: seq<byte>, query: Option<seq<byte>>)
    requires NUL !in path && (query.Some? ==> NUL !in query.value)
    ensures var acts := OnRequestGet(cfg, path, query);
            |acts| == 1 && acts[0].Write? && ParseResponse(acts[0].bytes).Some?
  {
    if DOT in path {
      if cfg.docRoot.Some? && cfg.readAll(FilePath(cfg.docRoot.value, path)).Some? {
        RouteFile(cfg, path, query);
      } else {
        RouteFileNotFound(cfg, path, query);
      }
    } else if path == ROOT {
      RouteWelcome(cfg, query);
    } else if path == ROOT_404 {
      RouteCanned404(cfg, query);
    } else {
      RouteEcho(cfg, path, query);
    }
  }
}
