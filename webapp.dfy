/**
 * The string logic of the web front end: choosing a content type from a file extension,
 * building the path of the requested file, and choosing which clients get a websocket frame.
 */
module Webapp {
  import opened Esp

  datatype Option<T> = None | Some(value: T)

  // ---------------------------------------------------------------------------------------
  // Case-insensitive extension check

  /** C's `tolower` in the "C" locale. */
  function ToLower(c: char): (l: char)
    ensures 'A' <= c <= 'Z' ==> l as int == c as int + 32
    ensures !('A' <= c <= 'Z') ==> l == c
  {
    if 'A' <= c <= 'Z' then (c as int + 32) as char else c
  }

  /** `s` with every ASCII letter lowered. */
  function Lower(s: string): (r: string)
    ensures |r| == |s| && forall i :: 0 <= i < |s| ==> r[i] == ToLower(s[i])
  {
    seq(|s|, i requires 0 <= i < |s| => ToLower(s[i]))
  }

  predicate EndsWith(s: string, suffix: string) {
    |s| >= |suffix| && s[|s| - |suffix|..] == suffix
  }

  /** `strcasecmp(a, b) == 0`, compared character by character. */
  function StrcaseEq(a: string, b: string): (equal: bool)
    decreases |a|
  {
    if a == [] || b == [] then a == b
    else ToLower(a[0]) == ToLower(b[0]) && StrcaseEq(a[1..], b[1..])
  }

  /** Two strings are equal ignoring ASCII case exactly when their lowered forms are equal. */
  lemma {:induction false} StrcaseEqIff(a: string, b: string)
    ensures StrcaseEq(a, b) <==> Lower(a) == Lower(b)
    decreases |a|
  {
    if a != [] && b != [] {
      StrcaseEqIff(a[1..], b[1..]);
      assert Lower(a) == [ToLower(a[0])] + Lower(a[1..]);
      assert Lower(b) == [ToLower(b[0])] + Lower(b[1..]);
    }
  }

  /**
   * `CHECK_FILE_EXTENSION(f, ext)` as written: it compares from `&f[strlen(f) - strlen(ext)]`,
   * which lies before the start of `f` when `f` is shorter than `ext` (`None`: undefined).
   */
  function CheckFileExtensionAsWritten(filename: string, ext: string): (r: Option<bool>)
    ensures r.None? <==> |filename| < |ext|
    ensures r.Some? ==> (r.value <==> Lower(filename[|filename| - |ext|..]) == Lower(ext))
  {
    if |filename| < |ext| then None
    else
      StrcaseEqIff(filename[|filename| - |ext|..], ext);
      Some(StrcaseEq(filename[|filename| - |ext|..], ext))
  }

  /** A file name shorter than the extension makes the macro read outside the string. */
  lemma ShortFilenameReadsBeforeStart()
    ensures CheckFileExtensionAsWritten("a.js", ".html") == None
    ensures !HasExtension("a.js", ".html")
  {
  }

  /**
   * The extension check as intended: `filename` ends with `ext` ignoring ASCII case, and a name
   * shorter than the extension does not match. Agrees with the macro wherever that is defined.
   */
  predicate HasExtension(filename: string, ext: string)
    ensures HasExtension(filename, ext) <==> EndsWith(Lower(filename), Lower(ext))
    ensures CheckFileExtensionAsWritten(filename, ext).Some? ==>
      CheckFileExtensionAsWritten(filename, ext).value == HasExtension(filename, ext)
  {
    if |filename| >= |ext| then
      StrcaseEqIff(filename[|filename| - |ext|..], ext);
      assert Lower(filename[|filename| - |ext|..]) == Lower(filename)[|filename| - |ext|..];
      StrcaseEq(filename[|filename| - |ext|..], ext)
    else false
  }

  /** `set_content_type_from_file`: the first matching extension wins, `text/plain` otherwise. */
  function ContentType(filepath: string): (r: string)
    ensures r in {"text/html", "application/javascript", "text/css", "image/png", "image/x-icon", "text/xml", "text/plain"}
    ensures r == "text/plain" <==>
      !HasExtension(filepath, ".html") && !HasExtension(filepath, ".js") && !HasExtension(filepath, ".css") &&
      !HasExtension(filepath, ".png") && !HasExtension(filepath, ".ico") && !HasExtension(filepath, ".svg")
  {
    if HasExtension(filepath, ".html") then "text/html"
    else if HasExtension(filepath, ".js") then "application/javascript"
    else if HasExtension(filepath, ".css") then "text/css"
    else if HasExtension(filepath, ".png") then "image/png"
    else if HasExtension(filepath, ".ico") then "image/x-icon"
    else if HasExtension(filepath, ".svg") then "text/xml"
    else "text/plain"
  }

  /** Changing the case of letters never changes the content type. */
  lemma ContentTypeIgnoresCase(f: string, g: string)
    requires Lower(f) == Lower(g)
    ensures ContentType(f) == ContentType(g)
  {
  }

  /** A name with a lower-case extension `ext` ends, lowered, with the last two characters of `ext`. */
  lemma ExtensionLastTwo(f: string, ext: string)
    requires |ext| >= 2 && Lower(ext) == ext && HasExtension(f, ext)
    ensures |f| >= 2
    ensures ToLower(f[|f| - 1]) == ext[|ext| - 1] && ToLower(f[|f| - 2]) == ext[|ext| - 2]
  {
    var l := Lower(f);
    assert l[|l| - 1] == l[|l| - |ext|..][|ext| - 1];
    assert l[|l| - 2] == l[|l| - |ext|..][|ext| - 2];
  }

  /** The six extensions are already in lower case. */
  lemma ExtensionsLowerCase()
    ensures Lower(".html") == ".html" && Lower(".js") == ".js" && Lower(".css") == ".css"
    ensures Lower(".png") == ".png" && Lower(".ico") == ".ico" && Lower(".svg") == ".svg"
  {
  }

  /**
   * Each content type is produced exactly when the path ends with its extension: the six
   * extensions exclude each other, so the order of the checks does not matter.
   */
  lemma ContentTypeTable(f: string)
    ensures ContentType(f) == "text/html" <==> HasExtension(f, ".html")
    ensures ContentType(f) == "application/javascript" <==> HasExtension(f, ".js")
    ensures ContentType(f) == "text/css" <==> HasExtension(f, ".css")
    ensures ContentType(f) == "image/png" <==> HasExtension(f, ".png")
    ensures ContentType(f) == "image/x-icon" <==> HasExtension(f, ".ico")
    ensures ContentType(f) == "text/xml" <==> HasExtension(f, ".svg")
  {
    // The last two characters of the six extensions all differ.
    ExtensionsLowerCase();
    if HasExtension(f, ".html") { ExtensionLastTwo(f, ".html"); }
    if HasExtension(f, ".js") { ExtensionLastTwo(f, ".js"); }
    if HasExtension(f, ".css") { ExtensionLastTwo(f, ".css"); }
    if HasExtension(f, ".png") { ExtensionLastTwo(f, ".png"); }
    if HasExtension(f, ".ico") { ExtensionLastTwo(f, ".ico"); }
    if HasExtension(f, ".svg") { ExtensionLastTwo(f, ".svg"); }
  }

  /** An upper-case request for the index page is still served as HTML. */
  lemma UpperCaseHtml()
    ensures ContentType("/www/INDEX.HTML") == "text/html"
  {
    assert Lower("/www/INDEX.HTML") == "/www/index.html";
    assert Lower(".html") == ".html";
  }

  // ---------------------------------------------------------------------------------------
  // The path of the requested file

  /** `ESP_VFS_PATH_MAX` (ESP-IDF's default) and `FILE_PATH_MAX`. */
  const EspVfsPathMax := 15
  const FilePathMax := EspVfsPathMax + 128

  function Min(a: int, b: int): (m: int) { if a <= b then a else b }

  /** `strlcpy(dst, src, size)`: at most `size - 1` characters of `src`. */
  function Strlcpy(src: string, size: nat): (dst: string)
    requires size >= 1
    ensures dst <= src && |dst| == Min(|src|, size - 1)
  {
    if |src| < size then src else src[..size - 1]
  }

  /**
   * `strlcat(dst, src, size)`: appends as much of `src` as leaves the string shorter than `size`;
   * a `dst` that already fills the buffer is left alone.
   */
  function Strlcat(dst: string, src: string, size: nat): (r: string)
    requires size >= 1
    ensures |dst| < size ==> r <= dst + src && |r| == Min(|dst| + |src|, size - 1)
    ensures |dst| >= size ==> r == dst
  {
    if |dst| >= size then dst
    else dst + src[..Min(|src|, size - 1 - |dst|)]
  }

  /** The file a GET of `uri` asks for: a URI ending in `/` means the root `index.html`. */
  function RequestedFile(basePath: string, uri: string): (path: string)
    requires |uri| >= 1
  {
    if uri[|uri| - 1] == '/' then basePath + "/index.html" else basePath + uri
  }

  /**
   * The path-building part of `get_handler`: `strlcpy` the base path into a `FILE_PATH_MAX`
   * buffer, then `strlcat` either `/index.html` or the URI.
   */
  method BuildFilePath(basePath: string, uri: string) returns (filepath: string)
    requires |uri| >= 1
    ensures filepath <= RequestedFile(basePath, uri)
    ensures |filepath| == Min(|RequestedFile(basePath, uri)|, FilePathMax - 1)
    ensures uri[|uri| - 1] == '/' && |basePath| + 11 < FilePathMax ==> filepath == basePath + "/index.html"
    ensures uri[|uri| - 1] != '/' && |basePath| + |uri| < FilePathMax ==> filepath == basePath + uri
  {
    filepath := Strlcpy(basePath, FilePathMax);
    ghost var suffix := if uri[|uri| - 1] == '/' then "/index.html" else uri;
    if uri[|uri| - 1] == '/' {
      filepath := Strlcat(filepath, "/index.html", FilePathMax);
    } else {
      filepath := Strlcat(filepath, uri, FilePathMax);
    }
    if |basePath| >= FilePathMax {
      assert filepath == basePath[..FilePathMax - 1];
      assert basePath <= basePath + suffix;
    }
  }

  /** Every directory-style URI is answered with the same file, the root `index.html`. */
  lemma DirectoryUrisShareIndex(basePath: string, a: string, b: string)
    requires |a| >= 1 && |b| >= 1 && a[|a| - 1] == '/' && b[|b| - 1] == '/'
    ensures RequestedFile(basePath, a) == RequestedFile(basePath, b) == basePath + "/index.html"
  {
  }

  // ---------------------------------------------------------------------------------------
  // Websocket fan-out

  /** `httpd_ws_client_info_t`. */
  datatype ClientInfo = ClientInvalid | ClientHttp | ClientWebsocket

  /** The listed clients that are websocket clients, in list order. */
  function WebsocketClients(clients: seq<int>, info: int -> ClientInfo): (r: seq<int>)
    ensures |r| <= |clients|
    ensures forall fd :: fd in r <==> fd in clients && info(fd) == ClientWebsocket
    decreases |clients|
  {
    if clients == [] then []
    else
      var last := clients[|clients| - 1];
      WebsocketClients(clients[..|clients| - 1], info) + (if info(last) == ClientWebsocket then [last] else [])
  }

  /** No client appears twice in the server's list, so none gets the frame twice. */
  lemma {:induction false} WebsocketClientsDistinct(clients: seq<int>, info: int -> ClientInfo)
    requires forall i, j :: 0 <= i < j < |clients| ==> clients[i] != clients[j]
    ensures var r := WebsocketClients(clients, info);
      forall i, j :: 0 <= i < j < |r| ==> r[i] != r[j]
    decreases |clients|
  {
    if clients != [] {
      var init, last := clients[..|clients| - 1], clients[|clients| - 1];
      WebsocketClientsDistinct(init, info);
      assert last !in init;
      assert last !in WebsocketClients(init, info);
    }
  }

  /**
   * The client loop of `generate_async_resp`: nothing is sent when the client list cannot be
   * retrieved; otherwise the frame goes to each websocket client, in list order.
   * The result is the sequence of descriptors the frame was sent to.
   */
  method GenerateAsyncResp(listStatus: Status, clients: seq<int>, info: int -> ClientInfo)
    returns (sent: seq<int>)
    ensures listStatus != Ok ==> sent == []
    ensures listStatus == Ok ==> sent == WebsocketClients(clients, info)
  {
    sent := [];
    if listStatus != Ok { return; }
    for i := 0 to |clients|
      invariant sent == WebsocketClients(clients[..i], info)
    {
      assert clients[..i + 1][..i] == clients[..i];
      if info(clients[i]) == ClientWebsocket {
        sent := sent + [clients[i]];
      }
    }
    assert clients[..|clients|] == clients;
  }
}
