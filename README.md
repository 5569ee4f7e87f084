# Object-store accessor of the web application, modelled in Dafny

The web application keeps its files in an S3 bucket and reaches it through a
handful of methods on its `App` value in `cmd/web/storage.go`. Almost all of
them hand one call to the AWS SDK and pass its error straight back. Two carry
logic of their own, and those are modelled here:

- **FindObject** resolves a logical name (such as `invoice`) to a full object
  key (such as `invoice.pdf`). It makes one listing call and scans the keys in
  listing order. Each key is cut at its first `.`, or taken whole when it has
  no `.`. The first key whose leading segment equals the logical name exactly
  is returned. No match yields the empty string and no error. A failed
  listing yields the empty string and that error.
- **ServeFile** downloads an object and sends it to the browser as an
  attachment. On a download error it hands the error to the application's
  error responder and does nothing else. Otherwise it sets
  `Content-Disposition: attachment; filename="<name>"` from the display name
  and writes the downloaded bytes.

Files:

- `go_strings.dfy`, module `GoStrings`: Go's `strings.Split` with a
  one-character separator, and `strings.Join` as the reference it is proved
  against.
- `storage.dfy`, module `Storage`: the two operations, with the listing and
  the download as inputs and the HTTP response as a value.

Modelling choices:

- `FindObject` is a method with the source's loop and early return. It is
  proved equal to the function `Resolve`, and the properties are proved about
  `Resolve` and `FirstMatch`, the index at which the scan stops.
- The listing is a `Listing` value: `ListFailed(error)` or `Listed(keys)`,
  holding the keys of the single page the source reads. The result is the
  pair Go returns: a key and an optional error.
- `ServeFile` is a function. Its inputs are the response state before the
  call, a function from bucket and key to a `Download` outcome standing for
  `DownloadBytes`, and the bucket, key and display name. It returns the
  response state after the call. That state holds the header map, the body
  bytes written, and the errors handed to the error responder.
- Store errors are opaque `StoreError` values; the code never inspects them.
- An edge case of the matching rule: the empty logical name matches the empty
  key and every key that starts with `.` (`EmptyNameMatchesLeadingDot`). When
  the empty key itself is the match, the result cannot be told apart from "no
  match". S3 does not allow empty keys, so `FindObject` is stated through
  `Resolve` and not through "the result is empty".

## Model

| member | source | states |
|---|---|---|
| `GoStrings.Split` | cmd/web/storage.go:147 | splitting on `.` gives at least one piece; no piece holds `.`; joining the pieces with `.` gives back the key; the first piece is a prefix of the key that reaches the key's end or its first `.` |
| `GoStrings.SplitUnique` | cmd/web/storage.go:147 | any `.`-free pieces that join back to the key are exactly what Split returns, so Split is fully determined by its contract |
| `Storage.KeyId` | cmd/web/storage.go:147 | the leading segment of a key has no `.`, is a prefix of the key, and reaches the key's end or its first `.` |
| `Storage.KeyIdMatches` | cmd/web/storage.go:147-148 | a key matches a logical name if and only if the name is a `.`-free prefix of the key that reaches the key's end or its first `.`; this is exact equality, not a substring test |
| `Storage.EmptyNameMatchesLeadingDot` | cmd/web/storage.go:147-148 | the empty logical name matches exactly the empty key and the keys that start with `.` |
| `Storage.FirstMatch` | cmd/web/storage.go:146-151 | the scan stops at an index within the listing or at its end; no key before it matches; the key at it, if any, matches |
| `Storage.FirstMatchUnique` | cmd/web/storage.go:146-151 | the stopping index is the only index that matches with no match before it |
| `Storage.Resolve` | cmd/web/storage.go:146-155 | the resolved key is empty or is an element of the listing that matches the logical name; if some key matches, the result is such a matching element; if no key matches it is empty |
| `Storage.FindObject` | cmd/web/storage.go:133-156 | a failed listing gives the empty key and that same error; a successful listing gives no error and the key `Resolve` picks from the listing, scanned in order with an early return |
| `Storage.ResolveFirst` | cmd/web/storage.go:146-151 | when some key matches, the result is the key at an index that matches, and no earlier key matches (first match wins) |
| `Storage.ResolveAppend` | cmd/web/storage.go:146-152 | keys after a match are never consulted: with a match in the front part, appending keys does not change the result; with none, the front part has no effect |
| `Storage.DottedNameNeverMatches` | cmd/web/storage.go:147-148 | a logical name containing `.` matches no key, so the result is the empty key |
| `Storage.InvoiceResolves` | cmd/web/storage.go:146-151 | the listing `invoice.pdf`, `report.csv` resolves `invoice` to `invoice.pdf` |
| `Storage.LongerNameDoesNotMatch` | cmd/web/storage.go:147-148 | `invoice123.pdf` does not match `invoice`: exact comparison of the leading segment, not a prefix test |
| `Storage.InvoiceMissing` | cmd/web/storage.go:146-155 | listings holding only `invoice123.pdf`, or only `report.csv`, resolve `invoice` to the empty key |
| `Storage.NoMatchIsNotAnError` | cmd/web/storage.go:141-155 | with no matching key, a successful listing gives the empty key without error, while a failed listing gives the empty key with its error |
| `Storage.ContentDisposition` | cmd/web/storage.go:126 | the header value is the prefix `attachment; filename="`, then the display name unchanged, then a closing quote |
| `Storage.DispositionRoundTrip` | cmd/web/storage.go:126 | the text between the prefix `attachment; filename="` and the final quote of the header value is the display name |
| `Storage.DispositionFilenameExact` | cmd/web/storage.go:126 | any header value from which a name reads back is exactly the value built from that name, so different names give different headers |
| `Storage.ServeFile` | cmd/web/storage.go:116-130 | on a download error: headers and body unchanged, and the error is handed to the error responder; on success: no error handed on, the body grows by exactly the downloaded bytes, only `Content-Disposition` is added or replaced, and the text between its prefix and final quote is the display name |
| `Storage.ServeFileIgnoresKey` | cmd/web/storage.go:119-129 | two successful downloads of the same bytes from different buckets or keys give the same response: the header depends only on the display name |

## Left out

- `UploadBytes`, `UploadFile`, `DownloadObject` and `DownloadBytes` (cmd/web/storage.go:18-113): each is one call into the AWS SDK with its error passed back, so there is no local behaviour to model. The outcome of `DownloadBytes` is an input of `ServeFile`.
- Put-then-get round trips and last-writer-wins at the store: these are properties of the remote store, not of this code.
- Local file I/O (`ioutil.ReadFile`, `os.Create`, the deferred `Close`): operating-system effects with no logic of their own here.
- The listing call itself, its single-page limit and its continuation tokens: the listing is the one page the code reads, given as input.
- The log line printed on a match (cmd/web/storage.go:149): output only.
- The `http.ResponseWriter` beyond its header map and body, the status code that `Write` sends implicitly, and what `ServerError` writes: external collaborators. The model records only which error was handed to the error responder.
- The shape of Go's `http.Header`: it maps canonicalised names to lists of values, and `Set` replaces all values of a name with one. The model's header is a map from a name to one value, and "only `Content-Disposition` is added or replaced" is stated for that simpler map.
- Escaping of `"` and `\` in the display name: the code does none (cmd/web/storage.go:126). For a name containing `"`, `\` or a line break, the quoted file name a client reads from the header differs from the display name. `DispositionFilename` undoes the concatenation and is not a Content-Disposition parser.
- Byte-level strings: Go strings are byte sequences, while the model's strings are sequences of characters. Splitting on `.` and comparing for equality behave the same on UTF-8 keys. The lengths in `ContentDisposition`'s contract count characters, not bytes.
- A listing entry whose key pointer is nil, which would make the Go code panic: S3 always sets the key, and listing keys are plain strings here.
- `GoStrings.Split`: models `strings.Split` only for a one-character separator, because the code splits only on `.`.
