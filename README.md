# Attendance terminal core, modelled in Dafny

An ESP32 attendance terminal records badge scans. Each scan of an RFID badge flips that
badge's presence in the NVS (non-volatile storage) namespace `tags`. It then appends an
IN or OUT row to the ledger namespace `time`, keyed by the current Unix second. The whole
ledger can be walked entry by entry. A small web front end serves static files and pushes
JSON frames to websocket clients.

This project models two parts of that system:

- the attendance toggle engine (`db_save_tag`, `db_save_time_entry`, `read_time_entry`,
  `db_read_attendance`), over an abstract two-namespace store;
- the pure string logic of the web front end: the content type chosen from a file
  extension, the path built for a GET request, and the filter that picks which clients
  receive a websocket frame.

## Layout

- `esp.dfy`, module `Esp`: the `esp_err_t` results the core tells apart. These are `Ok`,
  `NotFound` (`ESP_ERR_NVS_NOT_FOUND`) and `Failure(code)`. The module also holds `Fault`,
  the outcome injected into one store primitive (`Ok` means no fault).
- `decimal.dfy`, module `Decimal`: `uint64`/`int64`, and the two's-complement view
  `PRIu64` gives of a signed `tv_sec`. It also holds the decimal rendering `Render` with
  its inverse `Parse`, and `snprintf` truncation.
- `nvs.dfy`, module `Nvs`: `Direction` (`tag_direction_t`), `TimeBlob` (`time_blob_t`) and
  the class `Store`. `Store` holds the two maps `tags` and `time`. Its methods are the NVS
  primitives the core calls. Each one is an atomic map update whose status is either the
  injected fault or the natural result (found or not found).
- `database.dfy`, module `Database`: the engine. The functions `SaveTimeEntryEffect`,
  `SaveTagEffect` and `AttendanceOf` (by way of `ScanFrom`) give the effect of each C
  function on the store's contents. The methods `SaveTimeEntry`, `SaveTag` and
  `ReadAttendance` perform the same primitive calls, in the same order and with the same
  early returns as the C code, and are proved to match those functions. The lemmas state
  the engine's properties about these functions.
- `webapp.dfy`, module `Webapp`: `CHECK_FILE_EXTENSION`, `set_content_type_from_file`,
  `strlcpy`/`strlcat`, the path-building part of `get_handler`, and the client loop of
  `generate_async_resp`.

### Inputs taken as parameters

- The clock (`gettimeofday`) is the `clock: int64` parameter.
- The outcome of every store primitive is a fault parameter. `ScanFaults` covers one
  `db_save_tag`. `LedgerFaults` covers one `db_save_time_entry`. `ReadFaults` covers one
  `db_read_attendance`, whose `Enumeration` gives the key order chosen by the store and
  an injected outcome for each iterator step.
- The status of `httpd_get_client_list` is the `listStatus` parameter. The client list
  is the `clients` parameter. `httpd_ws_get_fd_info` is the `info` function parameter.

### Behaviour of the code to be aware of

- A failed ledger append is not reported. `db_save_tag` ignores the result of
  `db_save_time_entry` (`components/database/database.c:69` and `:81`).
- `db_save_tag` commits `tags` only after the ledger row has been written
  (`components/database/database.c:90`). So if that final commit fails, the call returns
  an error even though the presence has already flipped and the row is already in `time`.
  The presence is unchanged only when the open, the read or the erase/set fails.
- In `db_read_attendance`, an iterator step that fails with any error ends the walk the
  same way "no more entries" does, and the call returns OK
  (`components/database/database.c:108-116`).
- Snapshot publication and the reset command do not appear in the code, so they are not
  modelled.

## Model

| member | source | states |
|---|---|---|
| `Decimal.AsUnsigned` | components/database/database.c:27 | `tv_sec` printed with `PRIu64` is the value itself when non-negative, and the value plus 2^64 when negative |
| `Decimal.Render` | components/database/database.c:55 | the `%" PRIu64 "` rendering is non-empty, all digits, with no leading zero except for 0 itself |
| `Decimal.ParseRender` | components/database/database.c:55 | reading the rendering back gives the number again |
| `Decimal.RenderInjective` | components/database/database.c:55 | two numbers have the same rendering exactly when they are equal |
| `Decimal.RenderLength` | components/database/database.c:54-55 | a rendering has at most k digits exactly when the number is below 10^k |
| `Decimal.Uint64Digits` | components/database/database.c:54-55 | every `uint64_t` renders in at most 20 digits |
| `Decimal.Snprintf` | components/database/database.c:27 | `snprintf` with size n keeps the prefix of length min(length, n-1), so everything when it fits |
| `Database.TagKey` | components/database/database.c:54-55 | the `tags` key is exactly the decimal serial: 20 digits at most, so the 23 characters `snprintf` allows never truncate it |
| `Database.TimeKey` | components/database/database.c:24-27 | the `time` key is exactly the decimal `PRIu64` form of `tv_sec`, with no truncation in the 40-byte buffer |
| `Database.TimeKeyInjective` | components/database/database.c:24-30 | distinct clock readings give distinct ledger keys |
| `Nvs.Store.Open` | components/database/database.c:51-52 | `nvs_open` changes no data; its status is the injected outcome |
| `Nvs.Store.Commit` | components/database/database.c:90-91 | `nvs_commit` changes no data (writes are already in place); its status is the injected outcome |
| `Nvs.Store.GetI8` | components/database/database.c:58-60 | `nvs_get_i8` returns OK with the stored value when the key is present, NOT_FOUND when absent, or the injected fault |
| `Nvs.Store.SetI8` | components/database/database.c:75-76 | `nvs_set_i8` either fails and changes nothing, or sets exactly that key in `tags` |
| `Nvs.Store.EraseKey` | components/database/database.c:63-64 | `nvs_erase_key` either fails and changes nothing, or removes exactly that key from `tags`; NOT_FOUND when absent |
| `Nvs.Store.SetBlob` | components/database/database.c:30-31 | `nvs_set_blob` either fails and changes nothing, or sets the key in `time`, replacing any earlier blob (last writer wins) |
| `Nvs.Store.GetBlob` | components/database/database.c:8-9 | `nvs_get_blob` returns OK with the stored blob when the key is present, otherwise NOT_FOUND or the injected fault |
| `Nvs.Store.EntryStep` | components/database/database.c:108-114 | an iterator step yields entry i of the enumeration while no fault is injected and entries remain; past the end it is NOT_FOUND |
| `Nvs.IterStatus` | components/database/database.c:108-114 | an iterator step is OK exactly when no fault is injected and an entry remains |
| `Database.SaveTimeEntry` | components/database/database.c:15-43 | the method's final status and store equal `SaveTimeEntryEffect`: open, set-blob and commit, with an early return on each error |
| `Database.SaveTag` | components/database/database.c:45-96 | the method's final status and store equal `SaveTagEffect`: open, get, erase or set, the ledger append (result ignored), then the commit of `tags` |
| `Database.CheckIn` | components/database/database.c:74-84 | scanning an absent badge sets its key to 0 and returns the commit's status; the ledger gets `{tag, IN}` under the current second if the append's open and set succeed, and is otherwise unchanged |
| `Database.CheckOut` | components/database/database.c:61-72 | scanning a present badge removes its key and returns the commit's status; the ledger gets `{tag, OUT}` if the append's open and set succeed |
| `Database.EarlyFailureChangesNothing` | components/database/database.c:51-76 | a failed open, a failed read other than NOT_FOUND, or a failed erase/set returns that error and leaves `tags` and `time` unchanged (no ledger row) |
| `Database.PresenceFlipsExactlyOnToggle` | components/database/database.c:57-84 | the store changes only if open, read and write succeed; OK implies they did; then the presence of the badge flips |
| `Database.LedgerFaultsNotPropagated` | components/database/database.c:66-83 | the returned status and `tags` are the same whatever the ledger append does, so the toggle can succeed with no row written |
| `Database.OnlyScannedKeysChange` | components/database/database.c:27-30 | only the scanned badge's key changes in `tags`, only the current second's key changes in `time`, and a row written there carries the scanned tag |
| `Database.OtherBadgesUntouched` | components/database/database.c:54-59 | scanning one badge never changes another badge's presence or value |
| `Database.ScanTwice` | components/database/database.c:59-84 | two fault-free scans of a new badge at distinct seconds both return OK, restore `tags`, and write IN then OUT under two different keys |
| `Database.ScanTwiceSameSecond` | components/database/database.c:27-30 | two scans in the same second restore `tags`, but the OUT row overwrites the IN row |
| `Database.PresenceParity` | components/database/database.c:59-84 | after n fault-free scans of a badge, its presence has flipped exactly n times |
| `Database.ReadTimeEntry` | components/database/database.c:4-13 | `read_time_entry` returns the blob read's status and, on success, the row `{key, stored blob}` |
| `Database.ReadAttendance` | components/database/database.c:98-121 | the loop's status and printed rows equal `AttendanceOf` of the ledger; it has no `modifies` clause, so it never changes the store |
| `Database.AttendanceOkIff` | components/database/database.c:103-116 | the result is OK exactly when the open succeeds and every entry the iterator reaches is read successfully |
| `Database.AttendanceStopsAtFirstFailure` | components/database/database.c:109-115 | the first failed read's error is returned, and the printed rows are exactly the entries before it, in enumeration order, each with its stored blob |
| `Database.AttendanceListsLedger` | components/database/database.c:107-116 | with no faults, every ledger entry is printed exactly once, in the store's enumeration order |
| `Database.AppendThenRead` | components/database/database.c:30 | a row written by a successful append appears, verbatim, in a fault-free read of the ledger |
| `Webapp.StrcaseEqIff` | components/webapp/webapp.c:4 | `strcasecmp(a, b) == 0` exactly when the two strings are equal once ASCII letters are lowered |
| `Webapp.CheckFileExtensionAsWritten` | components/webapp/webapp.c:4 | the macro as written: undefined exactly when the name is shorter than the extension, otherwise true iff the name's last characters equal the extension ignoring ASCII case |
| `Webapp.HasExtension` | components/webapp/webapp.c:4 | the name ends with the extension ignoring ASCII case (and is at least as long); this agrees with the macro wherever the macro is defined |
| `Webapp.ShortFilenameReadsBeforeStart` | components/webapp/webapp.c:4 | for `"a.js"` and `".html"` the macro's start index lies before the name, and the corrected check answers no |
| `Webapp.ContentType` | components/webapp/webapp.c:21-38 | `set_content_type_from_file` yields one of the seven types, and `text/plain` exactly when the path has none of the six extensions |
| `Webapp.ContentTypeTable` | components/webapp/webapp.c:23-36 | `.html`→`text/html`, `.js`→`application/javascript`, `.css`→`text/css`, `.png`→`image/png`, `.ico`→`image/x-icon`, `.svg`→`text/xml`, each iff the name has that extension |
| `Webapp.ContentTypeIgnoresCase` | components/webapp/webapp.c:24-36 | names that differ only in letter case get the same content type |
| `Webapp.UpperCaseHtml` | components/webapp/webapp.c:24-25 | `/www/INDEX.HTML` is served as `text/html` |
| `Webapp.Strlcpy` | components/webapp/webapp.c:45 | `strlcpy` keeps a prefix of the source of length min(length, size-1) |
| `Webapp.Strlcat` | components/webapp/webapp.c:48-50 | `strlcat` gives a prefix of the untruncated concatenation of length min(total, size-1) |
| `Webapp.BuildFilePath` | components/webapp/webapp.c:43-51 | the path is a prefix of base path + (`/index.html` if the URI ends in `/`, else the URI), truncated to `FILE_PATH_MAX - 1` characters, and equal to it when it fits |
| `Webapp.DirectoryUrisShareIndex` | components/webapp/webapp.c:47-48 | every URI ending in `/` is answered with the same file, the root `index.html` |
| `Webapp.WebsocketClients` | components/webapp/webapp.c:122-128 | the frame targets are the listed clients whose info is websocket, and no others |
| `Webapp.WebsocketClientsDistinct` | components/webapp/webapp.c:122-128 | if no client is listed twice, no client gets the frame twice |
| `Webapp.GenerateAsyncResp` | components/webapp/webapp.c:116-128 | nothing is sent if the client list cannot be retrieved; otherwise the frame goes to exactly the websocket clients, in list order |

## Left out

- HTTP server lifecycle (`webapp_get_defaults`, `webapp_start_webserver`, `webapp_stop_webserver`): configuration and handler registration, with no logic to state.
- The file reading and chunked send loop of `get_handler`: POSIX I/O and HTTP transport. Only the path the file is opened at is modelled.
- `db_handler`: it builds JSON with the cJSON library, and the `db_data_array_t` type it reads is not part of this model.
- `ws_handler` and `http_server_handler`: they only store the session handle or log.
- Event-loop registration (`register_to_db_events`, `db_register_events`, `db_unregister_events`): ESP event-loop internals, and the database side has no body to model.
- Snapshot publication and a reset command: no code implements them.
- `main/main.c` and `main/components/rfid-app/rfid-app.c`: the RC522 driver hookup and HTTP wrappers, with no modelled logic.
- NVS specifics. Handle close pairing is not modelled, nor the handles left open on error paths. Commit durability and wear levelling are not modelled either: a write is visible as soon as it succeeds. The 15-character NVS key limit is not modelled on its own; it is one of the failures an injected fault stands for.
- Memory management: `malloc`/`free`, the leak of the read buffer when a read fails (`components/database/database.c:9`), and the iterator left unreleased when `db_read_attendance` returns early on a failed read (`components/database/database.c:113`).
- `printf` in `read_time_entry`: the printed rows are returned as `rows` instead, and the text format is not modelled.
- The bytes of `time_blob_t.tag` after the terminating NUL (uninitialised in the source), the struct's padding, and the enum's size: a blob is modelled as the tag string and a direction.
- The `int8_t` value read by `nvs_get_i8`: the source never uses it.
- `generate_async_resp`: the frame's payload, `httpd_ws_send_frame_async`'s result (ignored by the source), and the `CONFIG_LWIP_MAX_LISTENING_TCP` bound on the list length. The model returns the descriptors the frame is sent to.
- `ESP_VFS_PATH_MAX` is taken as ESP-IDF's default, 15, which makes `FILE_PATH_MAX` 143. The NUL-terminated `filepath` array is modelled as a string value, not as an array updated in place.
- Webapp.BuildFilePath: strings are modelled one byte per character, i.e. as ASCII. `strlcpy`/`strlcat` count bytes, so for a path with multi-byte UTF-8 characters the C code cuts at a different point (possibly inside a character) than the model's `FILE_PATH_MAX - 1` characters. The same one-byte-per-character reading applies to `Webapp.Strlcpy`, `Webapp.Strlcat` and the extension checks.
- Webapp.BuildFilePath: requires a non-empty URI, because the source reads `uri[strlen(uri) - 1]`; the HTTP server never passes an empty URI.

## Findings

| source | as written | input that shows it | evidently intended | confidence | as-written member | corrected member |
|---|---|---|---|---|---|---|
| components/webapp/webapp.c:4 | `CHECK_FILE_EXTENSION` starts comparing at `&filename[strlen(filename) - strlen(ext)]`; when the name is shorter than the extension this `size_t` difference wraps and the comparison reads before the start of the name | file path `"a.js"` checked against `".html"` (reachable when the mount point and URI are together shorter than an extension) | a name shorter than the extension does not match it | low: not executed; this exact input cannot reach the macro, since `get_handler` prefixes the mount point to a URI starting with `/` and the file must open; a path that short needs a mount point under 3 characters | `Webapp.CheckFileExtensionAsWritten`, shown by `Webapp.ShortFilenameReadsBeforeStart` | `Webapp.HasExtension`, used by `Webapp.ContentType` |
