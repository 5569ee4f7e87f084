// The object-store accessor of the web application: resolving a logical
// name to a full object key by scanning a bucket listing (FindObject), and
// turning a downloaded object into an attachment response (ServeFile).
// The object store and the HTTP response writer are outside the model: a
// listing and a download are inputs, and a response is a value.

module Storage {
  import GoStrings

  newtype byte = x: int | 0 <= x < 256

  datatype Option<T> = None | Some(value: T)

  /** An error returned by the object store (not found, permission denied,
      network failure); the accessor never inspects it. */
  datatype StoreError = StoreError(message: string)

  /** What the single listing call of FindObject returned: its error, or the
      keys of the one page it read, in listing order. */
  datatype Listing = ListFailed(error: StoreError) | Listed(keys: seq<string>)

  /** What fetching one object's bytes returned. */
  datatype Download = DownloadFailed(error: StoreError) | Downloaded(data: seq<byte>)

  // ---------------------------------------------------------------------
  // FindObject
  // ---------------------------------------------------------------------

  /** The logical name of an object key: `strings.Split(key, ".")[0]`, the
      part before the first `.`, or the whole key when it has none. */
  function KeyId(key: string): (id: string)
    ensures '.' !in id
    ensures id <= key
    ensures |id| == |key| || key[|id|] == '.'
  {
    var parts := GoStrings.Split(key, '.');
    assert parts[0] in parts;
    parts[0]
  }

  /** A key names `logical` exactly when `logical` is a dot-free prefix of
      the key that reaches its end or its first `.`: equality with the
      extracted segment, not a substring or prefix test. */
  lemma KeyIdMatches(key: string, logical: string)
    ensures KeyId(key) == logical <==>
      logical <= key && '.' !in logical && (|logical| == |key| || key[|logical|] == '.')
  {
    var id := KeyId(key);
    if logical <= key && '.' !in logical && (|logical| == |key| || key[|logical|] == '.') {
      assert id == key[..|id|] && logical == key[..|logical|];
    }
  }

  /** Index at which the scan over `keys` stops: the first key whose logical
      name is `logical`, or `|keys|` when there is none. */
  function FirstMatch(keys: seq<string>, logical: string): (i: nat)
    ensures i <= |keys|
    ensures forall j | 0 <= j < i :: KeyId(keys[j]) != logical
    ensures i < |keys| ==> KeyId(keys[i]) == logical
    decreases |keys|
  {
    if keys == [] then 0
    else if KeyId(keys[0]) == logical then 0
    else 1 + FirstMatch(keys[1..], logical)
  }

  /** The key FindObject returns for a listing that succeeded: the first
      matching key, or the empty string when none matches. */
  function Resolve(keys: seq<string>, logical: string): (found: string)
    ensures found == "" || (found in keys && KeyId(found) == logical)
    ensures (exists k | k in keys :: KeyId(k) == logical) ==> found in keys && KeyId(found) == logical
    ensures (forall k | k in keys :: KeyId(k) != logical) ==> found == ""
  {
    var i := FirstMatch(keys, logical);
    if i < |keys| then keys[i] else ""
  }

  /** FindObject: one listing call, then a scan in listing order that
      returns the first key whose logical name equals `logical`. No match
      gives the empty string with no error; a failed listing gives the empty
      string with that error, and no key is looked at. */
  method FindObject(listing: Listing, logical: string) returns (found: string, err: Option<StoreError>)
    ensures listing.ListFailed? ==> found == "" && err == Some(listing.error)
    ensures listing.Listed? ==> err == None && found == Resolve(listing.keys, logical)
  {
    var mismatch := "";
    if listing.ListFailed? {
      return mismatch, Some(listing.error);
    }
    var keys := listing.keys;
    for i := 0 to |keys|
      invariant forall j | 0 <= j < i :: KeyId(keys[j]) != logical
    {
      var id := KeyId(keys[i]);
      if id == logical {
        return keys[i], None;
      }
    }
    return mismatch, None;
  }

  /** First match wins: when some key matches, the result is the key at some
      index `i` that matches, and no key before `i` matches. */
  lemma ResolveFirst(keys: seq<string>, logical: string)
    requires exists j | 0 <= j < |keys| :: KeyId(keys[j]) == logical
    ensures exists i | 0 <= i < |keys| ::
      keys[i] == Resolve(keys, logical) && KeyId(keys[i]) == logical &&
      forall j | 0 <= j < i :: KeyId(keys[j]) != logical
  {
    var i := FirstMatch(keys, logical);
    assert keys[i] == Resolve(keys, logical);
  }

  /** The first match is the only index that is a match with no match
      before it. */
  lemma FirstMatchUnique(keys: seq<string>, logical: string, i: nat)
    requires i <= |keys|
    requires forall j | 0 <= j < i :: KeyId(keys[j]) != logical
    requires i < |keys| ==> KeyId(keys[i]) == logical
    ensures FirstMatch(keys, logical) == i
  {
  }

  /** Keys after a match are never looked at, and keys before all fail to
      match: resolving over a concatenated listing resolves over the first
      part if it has a match, and over the second part otherwise. */
  lemma ResolveAppend(front: seq<string>, back: seq<string>, logical: string)
    ensures (exists j | 0 <= j < |front| :: KeyId(front[j]) == logical) ==>
      Resolve(front + back, logical) == Resolve(front, logical)
    ensures (forall k | k in front :: KeyId(k) != logical) ==>
      Resolve(front + back, logical) == Resolve(back, logical)
  {
    var keys := front + back;
    var f := FirstMatch(front, logical);
    if f < |front| {
      assert keys[f] == front[f];
      assert forall j | 0 <= j < f :: keys[j] == front[j];
      FirstMatchUnique(keys, logical, f);
    } else {
      var b := FirstMatch(back, logical);
      assert forall j | 0 <= j < |front| :: keys[j] == front[j];
      assert forall j | 0 <= j < b :: keys[|front| + j] == back[j];
      assert b < |back| ==> keys[|front| + b] == back[b];
      FirstMatchUnique(keys, logical, |front| + b);
    }
  }

  /** A logical name containing `.` matches no key, since an extracted
      segment never contains `.`. */
  lemma DottedNameNeverMatches(keys: seq<string>, logical: string)
    requires '.' in logical
    ensures FirstMatch(keys, logical) == |keys|
    ensures Resolve(keys, logical) == ""
  {
  }

  /** The logical name of `invoice.pdf` is `invoice`. */
  lemma InvoicePdfName()
    ensures KeyId("invoice.pdf") == "invoice"
  {
    var key, name := "invoice.pdf", "invoice";
    assert name <= key && key[|name|] == '.';
    KeyIdMatches(key, name);
  }

  /** `report.csv` does not name `invoice`. */
  lemma ReportCsvName()
    ensures KeyId("report.csv") != "invoice"
  {
    var key := "report.csv";
    assert key[0] == 'r';
    KeyIdMatches(key, "invoice");
  }

  /** With a listing `invoice.pdf`, `report.csv`, the logical name `invoice`
      resolves to `invoice.pdf`. */
  lemma InvoiceResolves()
    ensures Resolve(["invoice.pdf", "report.csv"], "invoice") == "invoice.pdf"
  {
    InvoicePdfName();
    FirstMatchUnique(["invoice.pdf", "report.csv"], "invoice", 0);
  }

  /** `invoice123.pdf` does not match `invoice`: the name is a prefix of
      the key, but the key goes on with `1` rather than `.`. */
  lemma LongerNameDoesNotMatch()
    ensures KeyId("invoice123.pdf") != "invoice"
  {
    var key := "invoice123.pdf";
    assert key[7] == '1';
    KeyIdMatches(key, "invoice");
  }

  /** A listing holding only `invoice123.pdf`, or only `report.csv`,
      resolves `invoice` to the empty key. */
  lemma InvoiceMissing()
    ensures Resolve(["invoice123.pdf"], "invoice") == ""
    ensures Resolve(["report.csv"], "invoice") == ""
  {
    LongerNameDoesNotMatch();
    ReportCsvName();
    FirstMatchUnique(["invoice123.pdf"], "invoice", 1);
    FirstMatchUnique(["report.csv"], "invoice", 1);
  }

  /** The empty logical name is the name of the empty key and of every key
      that starts with `.`. */
  lemma EmptyNameMatchesLeadingDot(key: string)
    ensures KeyId(key) == "" <==> key == "" || key[0] == '.'
  {
    KeyIdMatches(key, "");
  }

  /** A failed listing and a listing without a match both yield the empty
      key, but only the failure carries an error. */
  method NoMatchIsNotAnError(keys: seq<string>, logical: string, e: StoreError)
    returns (missingKey: string, missing: Option<StoreError>, failedKey: string, failed: Option<StoreError>)
    requires forall k | k in keys :: KeyId(k) != logical
    ensures missingKey == "" && missing == None
    ensures failedKey == "" && failed == Some(e)
  {
    missingKey, missing := FindObject(Listed(keys), logical);
    failedKey, failed := FindObject(ListFailed(e), logical);
  }

  // ---------------------------------------------------------------------
  // ServeFile
  // ---------------------------------------------------------------------

  const DispositionHeader := "Content-Disposition"
  const AttachmentPrefix := "attachment; filename=\""

  /** The header value `attachment; filename="<name>"`, with the display
      name inserted as it is (nothing is escaped). */
  function ContentDisposition(name: string): (value: string)
    ensures |value| == |AttachmentPrefix| + |name| + 1
    ensures value[..|AttachmentPrefix|] == AttachmentPrefix
    ensures value[|AttachmentPrefix|..|value| - 1] == name
    ensures value[|value| - 1] == '"'
  {
    AttachmentPrefix + name + "\""
  }

  /** Undoes ContentDisposition: the text between the prefix and the final
      quote. This is not a Content-Disposition parser; it does not stop at
      an inner `"` or treat `\` as an escape. */
  function DispositionFilename(value: string): Option<string>
  {
    if |value| > |AttachmentPrefix| && value[..|AttachmentPrefix|] == AttachmentPrefix
      && value[|value| - 1] == '"'
    then Some(value[|AttachmentPrefix|..|value| - 1])
    else None
  }

  /** The text between the prefix and the final quote is the display
      name. */
  lemma DispositionRoundTrip(name: string)
    ensures DispositionFilename(ContentDisposition(name)) == Some(name)
  {
  }

  /** Conversely, any value from which a name reads back is exactly the
      header built from that name; so different names give different
      headers. */
  lemma DispositionFilenameExact(value: string, name: string)
    requires DispositionFilename(value) == Some(name)
    ensures value == ContentDisposition(name)
  {
    var p := |AttachmentPrefix|;
    assert value == value[..p] + value[p..|value| - 1] + [value[|value| - 1]];
  }

  /** The state of the HTTP response: its header map, the body bytes written
      so far, and the errors handed to the application's error responder. */
  datatype Response = Response(header: map<string, string>, body: seq<byte>, errors: seq<StoreError>)

  /** ServeFile: fetch the object's bytes; on failure hand the error to the
      error responder and do nothing else; on success set the attachment
      header from the display name and write exactly the downloaded bytes. */
  function ServeFile(w: Response, download: (string, string) -> Download,
                     bucket: string, key: string, name: string): (r: Response)
    ensures download(bucket, key).DownloadFailed? ==>
      r.header == w.header && r.body == w.body &&
      r.errors == w.errors + [download(bucket, key).error]
    ensures download(bucket, key).Downloaded? ==>
      r.errors == w.errors &&
      r.body == w.body + download(bucket, key).data &&
      r.header.Keys == w.header.Keys + {DispositionHeader} &&
      DispositionFilename(r.header[DispositionHeader]) == Some(name) &&
      (forall h | h in w.header && h != DispositionHeader :: r.header[h] == w.header[h])
  {
    match download(bucket, key)
    case DownloadFailed(err) =>
      w.(errors := w.errors + [err])
    case Downloaded(data) =>
      DispositionRoundTrip(name);
      w.(header := w.header[DispositionHeader := ContentDisposition(name)], body := w.body + data)
  }

  /** The response to a successful download depends on the display name and
      the bytes, not on which bucket or key they came from. */
  lemma ServeFileIgnoresKey(w: Response, download: (string, string) -> Download,
                            bucket1: string, key1: string, bucket2: string, key2: string, name: string)
    requires download(bucket1, key1).Downloaded? && download(bucket2, key2).Downloaded?
    requires download(bucket1, key1).data == download(bucket2, key2).data
    ensures ServeFile(w, download, bucket1, key1, name) == ServeFile(w, download, bucket2, key2, name)
  {
  }
}
