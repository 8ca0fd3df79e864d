# Firestarter backend commands: decision rules, modelled and proved in Dafny

The desktop client for the Pipe storage network has a Rust backend. Its Tauri commands live in
`src-tauri/src/commands/mod.rs`, and they upload, download, keep credentials and manage public
links. Most of these commands are HTTP and file-system plumbing. Inside them sit small
decision rules, and this project models those rules and proves what they promise:

- **Upload request** (module `UploadRequest`, with
  `PercentEncoding` and `Strings`):
  - the remote file name is the custom name, or else the final component of the local path;
  - the name goes into the query after the UTF-8 bytes are percent-encoded with
    `QUERY_ENCODE_SET`, as described in section 2.1 of RFC 3986;
  - the query is the ordered `file_name` / `tier` / `epochs` list, built by pushes and joined
    with `&`.
- **Upload progress** (`UploadProgress`): a counter that each streamed chunk increases, and the
  capped integer percent reported with every `upload_progress` event, plus the final 100 percent
  event after a successful response.
- **Download destination** (`DownloadPath`): the three-way choice of the path the downloaded
  bytes are written to.
- **Token lifecycle** (`Auth`): the expiry test with its five-minute buffer. Also how
  `ensure_valid_token` changes the credentials in place: it replaces the access token, or it
  clears the tokens.
- **Credential files** (`CredentialsStore`): `load_credentials` picks the credentials with the
  strictly greatest modification time. `list_saved_users` collects the readable users and sorts
  them stably by username, falling back to the user id.
- **Public links** (`PublicLinks`): create appends to the stored list, and delete keeps every
  entry whose hash differs.
- **URLs** (`ApiUrls`): relative proxy URLs get the API base prepended, and the health-check URL
  is built from the base.

Everything the rules read from the outside world becomes a parameter:
- the clock (`now`, whole seconds);
- whether a path exists or is a directory;
- file modification times;
- whether a file reads and parses;
- what the refresh endpoint answered;
- whether a write succeeded.

One module per concern, one file per module:
- `wrappers.dfy`: Option and Result.
- `strings.dfy`: trimming, joining, splitting and decimal text.
- `percent_encoding.dfy`
- `upload_request.dfy`
- `upload_progress.dfy`
- `download_path.dfy`
- `api_urls.dfy`
- `auth.dfy`
- `credentials_store.dfy`
- `public_links.dfy`

The source updates some state step by step, and that state is modelled imperatively:
- the progress counter is the class `ProgressCounter`;
- the credentials passed as `&mut` are the class `Credentials`;
- the link vector is the class `LinkList`, with `Push` and a `Retain` loop;
- the query parameters, the credential scan and the user scan are loops or pushes in methods.

The rest is written as functions with lemmas.

## Model

| member | source | states |
|---|---|---|
| Strings.TrimEndMatches | src-tauri/src/commands/mod.rs:739 | `trim_end_matches(c)` gives the longest prefix that does not end with `c`, and everything it cut off is `c` |
| Strings.TrimEndMatchesIdempotent | src-tauri/src/commands/mod.rs:826 | trimming twice gives what trimming once gives |
| Strings.TrimEndMatchesAppend | src-tauri/src/commands/mod.rs:826 | trimming ignores one more trailing `c` |
| Strings.TrimEndMatchesAppendRun | src-tauri/src/commands/mod.rs:517 | trimming ignores any run of trailing `c`, so `dir/..///` trims to `dir/..` |
| Strings.Join | src-tauri/src/commands/mod.rs:537 | `params.join("&")`: one part is itself, and more parts are the first, the separator, then the join of the rest; `SplitJoin` proves that splitting the join on the separator gives back the parts when none contains it, and `FirstPieceOfJoin` that the first piece is the first part whatever the others hold |
| Strings.Decimal | src-tauri/src/commands/mod.rs:535 | `format!("{}", e)`: a non-empty run of decimal digits without a leading zero (except for 0 itself); `DecimalRoundTrip` proves it reads back as the number |
| Strings.SplitJoin | src-tauri/src/commands/mod.rs:537 | splitting a join on its separator gives back the parts, when no part contains the separator |
| Strings.DecimalRoundTrip | src-tauri/src/commands/mod.rs:535 | the decimal text of the `epochs` number reads back as the same number |
| PercentEncoding.Utf8Char | src-tauri/src/commands/mod.rs:527 | UTF-8 encoding: an ASCII character is its own single byte, and a non-ASCII character encodes to 2-4 bytes that are all non-ASCII |
| PercentEncoding.EncodeByte | src-tauri/src/commands/mod.rs:111-126 | a byte in the encode set, or any non-ASCII byte, becomes `%` and two hex digits whose value is the byte; any other byte is copied unchanged |
| PercentEncoding.PercentEncode | src-tauri/src/commands/mod.rs:527 | each byte becomes one character, or three when escaped, so the output is between one and three times the input length; `EncodedLength` gives the exact length |
| PercentEncoding.EncodeQueryValue | src-tauri/src/commands/mod.rs:527 | `utf8_percent_encode(name, QUERY_ENCODE_SET)`: percent-decoding the result gives back exactly the UTF-8 bytes of the name |
| PercentEncoding.EncodedIsPlainAscii | src-tauri/src/commands/mod.rs:111-126 | the encoded text is ASCII, and the only escaped character in the output is `%` |
| PercentEncoding.EncodedAvoids | src-tauri/src/commands/mod.rs:111-126 | no escaped character other than `%` appears in the output |
| PercentEncoding.EncodedCharComesFromByte | src-tauri/src/commands/mod.rs:527 | an ASCII character that is not `%` or a hex digit appears in the output only if the input holds that byte unescaped |
| PercentEncoding.Utf8AsciiByte | src-tauri/src/commands/mod.rs:527 | an ASCII byte occurs in a string's UTF-8 bytes only as that character |
| PercentEncoding.DecodeEncode | src-tauri/src/commands/mod.rs:527 | percent-decoding the encoded name gives back exactly its bytes |
| PercentEncoding.EncodedLength | src-tauri/src/commands/mod.rs:527 | the output is the input length plus two characters per escaped byte |
| PercentEncoding.EncodeUnescapedIsIdentity | src-tauri/src/commands/mod.rs:527 | bytes outside the set pass through unchanged |
| UploadRequest.IsBlank | src-tauri/src/commands/mod.rs:513 | `trim().is_empty()` is true exactly when every character is Unicode whitespace |
| UploadRequest.TrimWhitespaceEnd | src-tauri/src/commands/mod.rs:513 | `trim_end`: the longest prefix that does not end in whitespace, with only whitespace cut |
| UploadRequest.TrimWhitespaceStart | src-tauri/src/commands/mod.rs:513 | `trim_start`: the longest suffix that does not start with whitespace, with only whitespace cut |
| UploadRequest.LastSegment | src-tauri/src/commands/mod.rs:517 | the text after the last `/` is a suffix without `/`, preceded by `/` when shorter than the path |
| UploadRequest.FileName | src-tauri/src/commands/mod.rs:522 | a path's file name, when it has one, is a non-empty component without `/` that is neither `.` nor `..` |
| UploadRequest.PathsWithoutFileName | src-tauri/src/commands/mod.rs:517-522 | these paths have no file name (among others): the empty path, a path of only `/`, and any path whose last component is `..`, with or without trailing `/`; for these the name choice fails |
| UploadRequest.DotComponentIsSkipped | src-tauri/src/commands/mod.rs:517-522 | a final `.` component is skipped: `p/.` has the file name of `p/`, and `.` has none |
| UploadRequest.LastSegmentAfter | src-tauri/src/commands/mod.rs:522 | the last segment of a path ending in `/` followed by a name without `/` is that name |
| UploadRequest.LastSegmentOfPlain | src-tauri/src/commands/mod.rs:522 | a name without `/`, alone or after a directory, is its own last segment |
| UploadRequest.PlainNameIsFileName | src-tauri/src/commands/mod.rs:517-524 | a plain name is the file name of itself, of `dir/name` and of `dir/name/` |
| UploadRequest.RemoteFileName | src-tauri/src/commands/mod.rs:512-525 | a custom name that is not blank after trimming is used exactly; otherwise the result is exactly the local path's file name, and a path without one gives the error "Invalid file name" |
| UploadRequest.UploadParams | src-tauri/src/commands/mod.rs:530-536 | the parameters are `file_name=<encoded>` first, then `tier=` only when a tier is given, then `epochs=` only when epochs are given, last |
| UploadRequest.BuildUploadQuery | src-tauri/src/commands/mod.rs:527-537 | the vector built by pushes and joined with `&` is the ordered parameter list, and it starts with `file_name=<encoded name>` |
| UploadRequest.PrepareUpload | src-tauri/src/commands/mod.rs:492-537 | a missing file gives "File not found: <path>"; otherwise the request exists exactly when a name can be chosen, a path without a usable name gives "Invalid file name", and the URL is base + upload path + `?` + the joined query |
| UploadRequest.PlusToSpace | src-tauri/src/commands/mod.rs:537 | form decoding leaves a value without `+` unchanged |
| UploadRequest.ServerReadsEncodedName | src-tauri/src/commands/mod.rs:527-537 | when the encoded name holds no `&` or `+`, a query parser reads back exactly the name's bytes as `file_name` |
| UploadRequest.QueryCarriesNameWithoutAmpersand | src-tauri/src/commands/mod.rs:527-537 | with `QUERY_ENCODE_SET`, any name without `&` or `+` reaches the server unchanged, whatever the tier and epochs |
| UploadRequest.EncodeAmpersandName | src-tauri/src/commands/mod.rs:111-126 | the name `a&b` is encoded as `a&b`, because `&` is not escaped |
| UploadRequest.ServerStopsAtAmpersand | src-tauri/src/commands/mod.rs:537 | the server's `file_name` value ends at the first `&` |
| UploadRequest.AmpersandCutsName | src-tauri/src/commands/mod.rs:111-126 | as written, the name `a&b` reaches the server as `a` |
| UploadRequest.ComponentQueryCarriesAnyName | src-tauri/src/commands/mod.rs:527-537 | when `&` and `+` are escaped too, every name reaches the server unchanged |
| UploadProgress.Percent | src-tauri/src/commands/mod.rs:580-584 | the percent is at most 100, is 0 when the file size is 0, is 100 once the bytes reach the size, and below that is the floor of uploaded*100/size |
| UploadProgress.FloorRatio | src-tauri/src/commands/mod.rs:581 | the quotient brackets the ratio and reaches 100 exactly when the upload is complete |
| UploadProgress.DivIsMonotone | src-tauri/src/commands/mod.rs:581 | arithmetic helper for the percent: floor division is monotone in the dividend |
| UploadProgress.PercentIsMonotone | src-tauri/src/commands/mod.rs:580-584 | more uploaded bytes never show a smaller percent |
| UploadProgress.ProgressCounter.constructor | src-tauri/src/commands/mod.rs:562-571 | the counter starts at 0 with no chunks seen |
| UploadProgress.ProgressCounter.OnChunk | src-tauri/src/commands/mod.rs:578-590 | the counter grows by the chunk length, stays the sum of all chunks seen, and the event carries the percent, the counter and the file size |
| UploadProgress.UploadEvents | src-tauri/src/commands/mod.rs:574-622 | one event per chunk whose `uploaded` is the sum of the chunks so far; percents lie in [0,100], never decrease, and are all 0 for size 0; a success ends with the event (100, size, size) |
| DownloadPath.DirectoryPart | src-tauri/src/commands/mod.rs:739 | the directory part is the output path with trailing `/` trimmed, then trailing `\` trimmed: a prefix that does not end in `\`, with only `/` and `\` cut |
| DownloadPath.DirectoryPartTrimsSlashesFirst | src-tauri/src/commands/mod.rs:739 | the order of the two trims: `dir\/` gives `dir`, while `dir/\` keeps its `/` and gives `dir/` |
| DownloadPath.FinalPath | src-tauri/src/commands/mod.rs:732-744 | an empty output path gives the file name; a directory, or a path ending in `/` or `\`, gives the trimmed path + `/` + file name; any other path is returned unchanged |
| DownloadPath.TrailingSeparatorDoesNotMatter | src-tauri/src/commands/mod.rs:737-739 | `dir`, `dir/` and `dir\` name the same destination `dir/<file>` |
| DownloadPath.DownloadDestination | src-tauri/src/commands/mod.rs:729-760 | an empty download is the error "No file data received", and otherwise the bytes go to the resolved path |
| ApiUrls.ProxyUrl | src-tauri/src/commands/mod.rs:133-138 | a URL starting with `http` is kept as is; any other URL is the base followed by the URL; either way the result ends with the given URL and starts with `http` when the base does |
| ApiUrls.ProxyUrlIdempotent | src-tauri/src/commands/mod.rs:172-177 | resolving a resolved URL changes nothing when the base starts with `http` |
| ApiUrls.HealthUrl | src-tauri/src/commands/mod.rs:826 | the result is the base without trailing `/`, then `/health` |
| ApiUrls.HealthUrlIgnoresTrailingSlash | src-tauri/src/commands/mod.rs:826 | a trailing `/` on the base does not change the health URL |
| Auth.IsTokenExpired | src-tauri/src/commands/mod.rs:362-376 | a missing or unparseable `expires_at` counts as expired; a parsed one is expired exactly when it lies at most 300 s after now |
| Auth.ValidMeansParsedAndFuture | src-tauri/src/commands/mod.rs:362-376 | a token is not expired exactly when its `expires_at` is present, parses, and lies more than 300 s after now |
| Auth.ExpiryIsPermanent | src-tauri/src/commands/mod.rs:362-376 | an expired token stays expired as time passes |
| Auth.WithNewAccessToken | src-tauri/src/commands/mod.rs:412-421 | a refresh replaces the access token and `expires_in`, and sets `expires_at` to now + `expires_in`; the refresh token, CSRF token and token type are kept |
| Auth.RefreshedTokenExpiry | src-tauri/src/commands/mod.rs:412-419 | a refreshed token is valid right after the refresh exactly when its lifetime exceeds the five-minute buffer |
| Auth.Credentials.constructor | src-tauri/src/commands/mod.rs:285-293 | the object holds exactly the given saved credentials |
| Auth.Credentials.EnsureValidToken | src-tauri/src/commands/mod.rs:379-442 | nothing changes unless tokens are present and expired; a new token is written in place; a failure status clears the tokens; network and parse failures change nothing; save failures give their own errors |
| CredentialsStore.LatestIsUnique | src-tauri/src/commands/mod.rs:990-995 | at most one entry satisfies the selection rule, so the result is determined |
| CredentialsStore.LoadCredentials | src-tauri/src/commands/mod.rs:965-1010 | None exactly when the directory is missing or no loadable file is newer than the epoch; otherwise it picks the loadable entry with the greatest time, the first among equals |
| CredentialsStore.Collected | src-tauri/src/commands/mod.rs:1047-1062 | the pushed users are exactly the contents of the directory entries whose credentials file parsed: never more than the entries, each from such an entry, and every such entry pushed; `CollectedAppend` fixes their scan order; `ListSavedUsers` proves its push loop builds this |
| CredentialsStore.CollectedAppend | src-tauri/src/commands/mod.rs:1047-1062 | the users pushed for two runs of entries are those of the first run, then those of the second, so the pushes follow the scan order |
| CredentialsStore.DisplayName | src-tauri/src/commands/mod.rs:1066-1067 | the name a user is sorted by, `username` falling back to `user_id`; `SortByNameSortsAndPermutes` and `SortByNameIsStable` state the order it induces |
| CredentialsStore.StrLe | src-tauri/src/commands/mod.rs:1068 | `str::cmp` by code point: `StrLePrefixAndFirstDifference` proves a prefix sorts first and otherwise the first differing character decides, and `StrLeTotal`, `StrLeTransitive`, `StrLeAntisymmetric` prove it a total order |
| CredentialsStore.StrLePrefixAndFirstDifference | src-tauri/src/commands/mod.rs:1068 | a prefix sorts first, and otherwise the first differing character decides the order |
| CredentialsStore.StrLeTotal | src-tauri/src/commands/mod.rs:1068 | string comparison is total |
| CredentialsStore.StrLeTransitive | src-tauri/src/commands/mod.rs:1068 | string comparison is transitive |
| CredentialsStore.StrLeAntisymmetric | src-tauri/src/commands/mod.rs:1068 | strings that compare both ways are equal |
| CredentialsStore.Insert | src-tauri/src/commands/mod.rs:1065-1069 | insertion adds exactly the one entry |
| CredentialsStore.SortByName | src-tauri/src/commands/mod.rs:1065-1069 | `sort_by` on the display name keeps every entry with its multiplicity; `SortByNameSortsAndPermutes` and `SortByNameIsStable` prove it sorted and stable |
| CredentialsStore.InsertKeepsSorted | src-tauri/src/commands/mod.rs:1065-1069 | inserting into a sorted list keeps it sorted by display name |
| CredentialsStore.SortByNameSortsAndPermutes | src-tauri/src/commands/mod.rs:1065-1069 | the sorted list is ordered by username-or-user-id and is a permutation of the input |
| CredentialsStore.WithNameAppend | src-tauri/src/commands/mod.rs:1065-1069 | selecting one name distributes over concatenation |
| CredentialsStore.WithNameNone | src-tauri/src/commands/mod.rs:1065-1069 | a list without the name has no entries under it |
| CredentialsStore.InsertIsStable | src-tauri/src/commands/mod.rs:1065-1069 | an inserted entry goes after the existing entries with the same name |
| CredentialsStore.SortByNameIsStable | src-tauri/src/commands/mod.rs:1065-1069 | entries with equal display names keep their scan order, as with the stable `sort_by` |
| CredentialsStore.ListSavedUsers | src-tauri/src/commands/mod.rs:1035-1072 | empty without the directory; otherwise the readable users are pushed in scan order and sorted stably by name, with nothing lost or added |
| PublicLinks.WithoutHash | src-tauri/src/commands/mod.rs:1275 | `retain` on a different hash: never longer than the input and no kept entry has the hash; `WithoutHashRemovesExactly` proves every other entry is kept |
| PublicLinks.WithoutHashAppend | src-tauri/src/commands/mod.rs:1275 | retaining distributes over concatenation, so kept links keep their order, and the matches count adds up |
| PublicLinks.WithoutHashRemovesExactly | src-tauri/src/commands/mod.rs:1274-1277 | no link with the hash remains, every other link remains as often as before, and the count goes from `before` to `before - matches` |
| PublicLinks.WithoutHashIdempotent | src-tauri/src/commands/mod.rs:1275 | deleting the same hash twice is deleting once |
| PublicLinks.CreateThenDelete | src-tauri/src/commands/mod.rs:1236-1275 | deleting the hash of a just-appended link gives what deleting from the old list gives |
| PublicLinks.LinkList.constructor | src-tauri/src/commands/mod.rs:1229-1235 | the list holds the links read from the file |
| PublicLinks.LinkList.Push | src-tauri/src/commands/mod.rs:1236 | the entry is appended at the end |
| PublicLinks.LinkList.Retain | src-tauri/src/commands/mod.rs:1275 | afterwards the list is exactly the links whose hash differs, in their order |
| PublicLinks.CreatePublicLink | src-tauri/src/commands/mod.rs:1228-1240 | the written list is the stored links, or none if reading failed, with the new entry last; the command returns the entry even when writing the file fails |
| PublicLinks.DeletePublicLink | src-tauri/src/commands/mod.rs:1272-1277 | read and write failures are errors; otherwise the kept links are written and the message reports `before -> before - matches` |

## Left out

- The frontend's upload-task tracking is not part of this model: byte accumulation across parts, speed and ETA smoothing, and the task state machine. Its TypeScript source is not part of this model.
- All HTTP traffic and response handling:
  - the `proxy_api_*` requests, `get_token_usage`, `user_login`, `set_user_password`;
  - the request and 401 retry in `download_file`;
  - the refresh request itself. Its outcome is the input `RefreshReply`.
- `test_api_connection` sorts network errors by matching substrings of library error text. This is not modelled; only its URL is.
- File-system access is not modelled: `exists`, `is_dir`, metadata, directory scans, reads, writes, `create_dir_all` and `remove_dir_all`. What they report is an input.
- Which commands this leaves out entirely:
  - `save_credentials`, `clear_credentials`, `list_public_links` and `get_upload_history` only move data to and from files;
  - `append_upload_log`, and the log entries that `upload_file` writes, are file I/O.
- Parsing and calls into code this model cannot see:
  - serde JSON parsing and serialisation, and `include_str!` config loading. A parse is an `Option` input.
  - chrono RFC 3339 parsing is the datatype `Stamp`.
  - `Utc::now` and `SystemTime::now` are the parameter `now`, in whole seconds. The "System time error" path is not modelled.
- The blake3 hash of the uploaded bytes is a foreign library and is not modelled.
- Tauri `emit`, `AppHandle` and `State` are not modelled. Neither are the `Arc<Mutex<…>>` wrappers around the counter and hasher, which exist only for the streaming callback. Emitted events are returned as a sequence.
- The `register_user` and `login_user` stubs, `get_api_config`, `get_config_path` and `refresh_token` are not modelled. `refresh_token` only calls `ensure_valid_token`.
- The download URL (`?file_name=<encoded>`, lines 654-656) is not modelled separately. It uses the same encoding as the upload `file_name`.
- `src-tauri/src/lib.rs` (builder wiring) and `resize_square.py` (an image resize script) are not modelled.
- UploadProgress.Percent: uses integer floor division in place of the f64 expression `(up / size * 100.0).min(100.0) as u32`. Rounding can make the f64 value one lower: 29 of 100 bytes gives 28.999…, which truncates to 28, while the model gives 29.
- UploadProgress.ProgressCounter.OnChunk: the u64 counter is unbounded here. Overflow would need more than 2^64 bytes.
- Auth.Credentials.EnsureValidToken: does not model `DateTime::from_timestamp` failing ("Invalid expiration timestamp") for expiries outside chrono's range of about ±262,000 years. It also does not model i64 overflow of `now + expires_in`. Its errors are variants of `TokenError`, not the message strings.
- UploadRequest.FileName: follows the Unix rules of `Path::file_name`, with `/` as the only separator. Windows separators and drive prefixes are not modelled.
- CredentialsStore.SortByName: the in-place stable merge sort of `sort_by` is modelled as a pure stable insertion sort on a sequence. A stable sort's result is fixed by the order, so the final list is the same. The in-place steps are not modelled.
- PublicLinks.DeletePublicLink: the returned message is modelled, but the server request before it is not.

## Findings

| source | as written | input that shows it | evidently intended | confidence | as-written member | corrected member |
|---|---|---|---|---|---|---|
| src-tauri/src/commands/mod.rs:111-126 | `&` and `+` are not in `QUERY_ENCODE_SET`, so they go into the `file_name` (and `tier`) value unescaped | remote name `a&b`: the query is `file_name=a&b`, and a query parser splitting on `&` reads the name as `a`; likewise `a+b` is read as `a b` | every name arrives at the server unchanged, which needs `&` and `+` escaped as `%26` and `%2B` | medium: not executed; depends on the server parsing the query as form data | UploadRequest.AmpersandCutsName | UploadRequest.ComponentQueryCarriesAnyName |

The corrected encoding is `PercentEncode(QueryComponentSet, …)`: `UploadParams` takes the
encode set as a parameter. `ComponentQueryCarriesAnyName` proves that with this set, every name
reaches the server unchanged. `QueryCarriesNameWithoutAmpersand` proves that the set as written
is correct for every name without `&` or `+`. `BuildUploadQuery` and `PrepareUpload` keep the
set as written, so that they describe what the program sends.
