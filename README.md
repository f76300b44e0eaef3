# Form submission archive — a verified model

main.py is a small web application. An HTTP handler serves three HTML pages,
redirects `/goit`, and serves any other existing file as a static asset. A
POST relays the raw form body as one UDP datagram to a listener in the same
process. For every datagram the listener:

- normalises the `application/x-www-form-urlencoded` payload into a
  key → value dict (`normalize_data`);
- stores that dict in the JSON archive `storage/data.json`, under the current
  time formatted as `YYYY-MM-DD HH:MM:SS.ffffff` (`save_to_json`).

The model has one module per concern:

| file | module | models |
|---|---|---|
| `results.dfy` | `Results` | `Option` and `Result`, shared by the others |
| `form.dfy` | `FormData` | `normalize_data`: `unquote_plus`, `str.split`, the tuple unpack, the dict comprehension; the browser's form encoder as the decoder's partner |
| `timestamp.dfy` | `Timestamps` | the archive key `strftime("%Y-%m-%d %H:%M:%S.%f")`, and a parser that inverts it |
| `storage.dfy` | `Storage` | the archive as a map, and the class `Store` whose `SaveToJson` performs the read-modify-write of `save_to_json` |
| `ingestion.dfy` | `Ingestion` | the receive loop of `run_socket_server` as a method over a `Store`, and the pure function it is proved against |
| `routing.dfy` | `Routing` | the response `do_GET` chooses for a request target, and what `do_POST` relays and answers |

Normalisation decodes the whole payload before it splits it. So an encoded
`%26` or `%3D` acts as a separator, and `normalize(encode(k)=encode(v))` gives
back `{k: v}` exactly when neither `k` nor `v` holds `&` or `=`.

Normalisation fails, with the tuple unpack's `ValueError`, at the first
segment that does not hold exactly one `=`. The listener only catches
`KeyboardInterrupt`, so that error ends the loop (so does a datagram that is
not valid UTF-8; see "Left out"). The archive keeps what the
datagrams before that segment's datagram wrote.

Two behaviours of the code differ from what one would expect of such a
service, and the model follows the code:

- One might expect a malformed datagram to be dropped while the listener
  keeps listening. In the code (main.py:89-98) the `ValueError` escapes the
  `while True` loop, and `Ingestion.RunSocketServer` stops there.
- One might expect a POST to redirect whatever happens to the relay. In the
  code (main.py:32-37) an exception from `sendto` propagates out of
  `do_POST` before `send_response(302)`. `Routing.DoPost` returns
  `Err(RelayFailed)` in that case.

## Model

| member | source | states |
|---|---|---|
| FormData.UnquotePlus | main.py:78 | decoding never lengthens the text |
| FormData.UnquoteWithoutEscapes | main.py:78 | without a `%`, decoding only turns each `+` into a space, character by character |
| FormData.UnquoteEscape | main.py:78 | `%` followed by two hex digits, of either case, decodes to the character with that code |
| FormData.UnquoteStrayPercent | main.py:78 | a `%` not followed by two hex digits is kept as it is, and decoding goes on after it |
| FormData.UnquotePlain | main.py:78 | text without `%` and `+` decodes to itself |
| FormData.UnquoteConcat | main.py:78 | text without `%` decodes independently of what follows it |
| FormData.HexValue | main.py:78 | a hex digit's value is below 16 |
| FormData.HexCaseInsensitive | main.py:78 | a lowercase hex digit has the value of its uppercase form, so with `HexDigitUpper` every digit's value is fixed |
| FormData.Split | main.py:80 | `str.split` with one separator: one piece more than there are separators, no piece holds the separator, and joining the pieces gives the text back |
| FormData.SplitJoin | main.py:80 | splitting a join of separator-free pieces gives the pieces back |
| FormData.SplitOfNoSeparator | main.py:80 | text without the separator splits into itself alone |
| FormData.SplitAfterPiece | main.py:80 | a separator-free piece followed by the separator splits off as the first piece |
| FormData.CountAbsent | main.py:80 | a character that does not occur is counted zero times |
| FormData.CountConcat | main.py:80 | occurrences in a concatenation add up |
| FormData.CountPresent | main.py:80 | a character that occurs is counted at least once |
| FormData.Unpack | main.py:80 | from segment `from` on, the unpack succeeds iff every segment holds exactly one `=`; on success the j-th pair is the key and value of segment `from + j`; on failure it reports the first bad segment, by its position in the payload, and its number of pieces (not 2), with all earlier segments well formed |
| FormData.UnpackedPairs | main.py:80 | unpacking all segments puts each segment's key and value at the segment's own position |
| FormData.ToMapKeys | main.py:79-81 | the dict's keys are exactly the keys of the pairs |
| FormData.ToMapLastWins | main.py:79-81 | a key holds the value of its last pair |
| FormData.ToMap | main.py:79-81 | the dict comprehension, inserting the pairs in order; it has no contract of its own, its meaning is stated by `ToMapKeys` and `ToMapLastWins` |
| FormData.LastWith | main.py:79-81 | every key has a last pair with that key |
| FormData.Segments | main.py:78-80 | the `&`-free pieces of the decoded payload, at least one, that join back to the decoded text |
| FormData.Normalize | main.py:77-82 | `normalize_data` succeeds iff every decoded segment holds exactly one `=`; otherwise it fails at the first segment that does not, with 1 or more than 2 pieces, all earlier segments being well formed |
| FormData.KeyOf | main.py:80 | the key is the prefix of the segment before its first `=`: it holds no `=`, and a `=` follows it unless it is the whole segment |
| FormData.ValueOf | main.py:80 | the second piece of `el.split("=")`; it has no contract of its own, `SegmentSplit` and `SegmentParts` state what it is |
| FormData.EmptyPayloadFails | main.py:80 | the empty payload is one empty segment and fails with 1 piece |
| FormData.SegmentParts | main.py:80 | a segment `k=v` with no `=` in `k` or `v` has key `k` and value `v` |
| FormData.SegmentSplit | main.py:80 | a segment with one `=` is its key, `=`, its value, and neither side holds `=` |
| FormData.SubstringsAvoid | main.py:80 | the parts of a segment without `&` hold no `&` |
| FormData.NormalizeEntries | main.py:79-81 | on success the keys are exactly the segments' keys, and each key holds the value of the last segment with that key |
| FormData.SegmentEntries | main.py:79-81 | the dict of the pairs of well-formed segments has the segments' keys, each holding the value of its last segment |
| FormData.NormalizeNoSeparators | main.py:78-80 | no key or value of a normalised payload contains `&` or `=` |
| FormData.NormalizeSingleField | main.py:77-82 | a payload that decodes to `k=v`, no separator in `k` or `v`, normalises to `{k: v}` |
| FormData.FieldCount | main.py:80 | a field `k=v` with no `=` in `k` or `v` holds exactly one `=` |
| FormData.OneSegment | main.py:80 | a field without `&` in key or value is a single segment |
| FormData.NormalizeTwoFields | main.py:77-82 | a payload that decodes to `k1=v1&k2=v2` normalises to `{k1: v1, k2: v2}`, the second value winning on equal keys |
| FormData.DuplicateKeyLastWins | main.py:79-81 | of two fields with the same key, the later value is kept |
| FormData.HexDigitUpper | main.py:78 | the encoder's hex digit decodes to its value |
| FormData.UnquoteEncodedChar | main.py:78 | decoding undoes the encoding of one character |
| FormData.UnquotePlusInvertsFormEncode | main.py:78 | `unquote_plus(encode(s) + t) == s + unquote_plus(t)` for every ASCII `s` |
| FormData.DecodeEncodedValue | main.py:78 | an encoded value decodes to itself |
| FormData.UnquoteSeparator | main.py:78 | a character other than `%` and `+` decodes to itself, whatever follows |
| FormData.DecodeEncodedField | main.py:78 | the field `encode(k)=encode(v)` decodes to `k=v` |
| FormData.RoundTripIff | main.py:78-80 | `normalize(encode(k)=encode(v)) == {k: v}` iff neither `k` nor `v` holds `&` or `=` |
| FormData.EncodedAmpersandInjectsField | main.py:78-80 | a value `v1&k2=v2`, though encoded, yields two fields `{k1: v1, k2: v2}` |
| FormData.EncodedEqualsBreaksField | main.py:78-80 | an encoded `=` in a key or value makes the field fail at segment 0, with one piece per `=` plus one |
| FormData.EncodedFieldSegments | main.py:78-80 | an encoded field without `&` in key or value decodes to the single segment `k=v` |
| FormData.SingleSegmentFails | main.py:80 | a payload decoding to one segment that does not split into two pieces fails at segment 0 with its number of pieces |
| FormData.FieldEqualsCount | main.py:80 | a field whose key or value holds `=` has at least two `=` |
| Timestamps.ZeroPad | main.py:68 | a number below 10^width prints as exactly `width` digits that read back as the number |
| Timestamps.Format | main.py:68 | `strftime("%Y-%m-%d %H:%M:%S.%f")`; it has no contract of its own, `FormatShape`, `ParseFormat`, `FormatParse` and `FormatInjective` state what it is |
| Timestamps.FormatShape | main.py:68 | every key has 26 characters, with `-`, `-`, space, `:`, `:` and `.` at positions 4, 7, 10, 13, 16 and 19 |
| Timestamps.ParseFormat | main.py:68 | every key parses back to the date and time it was made from |
| Timestamps.FormatParse | main.py:68 | every string that parses is the key of what it parses to |
| Timestamps.FormatInjective | main.py:68 | two keys are equal iff their instants are equal, to the microsecond |
| Timestamps.ReadPadded | main.py:68 | a zero-padded field reads back as its number, followed by what comes after its separator |
| Timestamps.ReadFieldWritten | main.py:68 | a field that reads as a number is that number zero-padded |
| Timestamps.PadDecimal | main.py:68 | a digit string is the zero-padded form of the number it denotes |
| Storage.InsertKeeps | main.py:71 | after `existing_data[now] = data` the key holds the record and every other entry is unchanged |
| Storage.Insert | main.py:71 | `existing_data[now] = data`; it has no contract of its own, `InsertKeeps` and `InsertSize` state what it does |
| Storage.InsertSize | main.py:70-71 | the insert adds exactly its key: one entry more, or as many when the key collides |
| Storage.CollisionOverwrites | main.py:71 | two saves under the same key leave only the second record |
| Storage.Store.constructor | main.py:70 | the store holds the archive it is given |
| Storage.Store.SaveToJson | main.py:67-74 | the archive afterwards is the old one with the formatted instant mapped to the record |
| Storage.InsertAllFresh | main.py:67-74 | saves under fresh distinct keys keep every old entry, store every record under its key, and add one entry per save |
| Ingestion.HandleDatagram | main.py:91-93 | the outcome is the payload's normalisation; a well-formed payload is saved, a malformed one leaves the archive unchanged |
| Ingestion.RunSocketServer | main.py:89-98 | the archive ends as `Ingest` of the datagrams; the count of archived datagrams and the error of the one that raised are reported |
| Ingestion.Ingest | main.py:89-95 | the archive after the loop only grows: every key it held survives, and every new key is a key the loop saved under |
| Ingestion.IngestStep | main.py:90-93 | a malformed datagram leaves the archive as it is; a well-formed one is saved and the loop goes on |
| Ingestion.IngestStopsAtMalformed | main.py:90-95 | nothing after the first malformed datagram is archived |
| Ingestion.MalformedPayloadEndsIngestion | main.py:89-98 | the archive after the loop equals the archive after the datagrams before the first malformed one |
| Ingestion.IngestWellFormed | main.py:90-93 | with only well-formed datagrams the loop is the sequence of their saves |
| Ingestion.ArchiveRoundTrip | main.py:90-93 | N well-formed datagrams at distinct new instants give exactly N new entries, each retrievable under its key with its record, and no old entry lost |
| Routing.BeforeQuery | main.py:17 | the path part is the prefix of the target before its first `?` or `#` |
| Routing.StripParams | main.py:17 | the path is a prefix of its input; it is the whole input iff no `;` follows the last `/`, and otherwise ends just before the first `;` after the last `/` |
| Routing.LastSlash | main.py:17 | the index of the last `/` when the text holds one (no `/` after it), and 0 when it holds none |
| Routing.FindFrom | main.py:17 | the index found is the first occurrence from the start position |
| Routing.UrlPath | main.py:17 | `urlparse(target).path` is a prefix of the target that holds no `?` or `#` |
| Routing.RouteGet | main.py:16-30 | the corrected handler: `/` and `/message` give their pages with 200; `/goit` and only it gives 302 to the external URL; any other path gives 404 with `error.html` iff `path[1:]` does not exist, and otherwise a static 200 serving exactly `path[1:]`, typed with the guess for the path or `text/plain` without one |
| Routing.RouteGetIgnoresQuery | main.py:17-22 | appending a query or fragment never changes the response |
| Routing.BeforeQueryStops | main.py:17 | a target free of `?` and `#` is its own path part, whatever query follows |
| Routing.ContentTypeAsWritten | main.py:48-52 | the `if mt:` choice as written; it has no contract of its own, `UnknownTypeSentAsNone` states what it does |
| Routing.StaticAsWritten | main.py:46-55 | `send_static_file` as written, typing and opening `"." + self.path`; it has no contract of its own, `AsWrittenDiffersOnlyInStaticFile` states what it does |
| Routing.RouteGetAsWritten | main.py:16-30 | `do_GET` as written; it has no contract of its own, `AsWrittenDiffersOnlyInStaticFile` relates it to the corrected `RouteGet` on every target |
| Routing.AsWrittenDiffersOnlyInStaticFile | main.py:16-55 | on every target the handler as written answers with the corrected status; it differs only in a static answer, which names the file `"." + target` and sends the guess for the raw target printed with `%s` |
| Routing.AsWrittenAgreesOnPlainTargets | main.py:27-54 | for a target without query, fragment or params whose type is known, the handler as written answers like the corrected one |
| Routing.QueryServesUncheckedFile | main.py:27-54 | as written, `/a?b` with `a` on disk answers 200 for the missing file `a?b`; corrected, it serves `a` |
| Routing.UnknownTypeSentAsNone | main.py:48-52 | as written, an unknown type is sent as `None`; the corrected choice sends `text/plain` |
| Routing.ReadBody | main.py:33 | `rfile.read(n)` gives the whole body for `n == -1`, a prefix of length `n` (or the whole body when shorter) for `n >= 0`, and raises for `n < -1` |
| Routing.DoPost | main.py:32-37 | the POST answers iff `Content-Length` parses to a number of at least -1 and the relay returns; a missing or bad header, a length below -1 and a failed relay each raise their own error; the answer is 302 to `/`, and the datagram is the body's prefix of the declared length, or the whole body for -1 or a length beyond its end |

## Left out

- Sockets, the HTTP server and the threads are not modelled (main.py:58-64, 85-88, 101-113). This covers `serve_forever`, `recvfrom`, `sendto`, the writing of status lines, headers and file bytes, `KeyboardInterrupt`, `close`, and `print`. A received datagram is an element of a sequence, and the relay's outcome is a boolean.
- `recvfrom(1024)` truncates longer datagrams. The model receives each datagram whole.
- `data.decode()` raises `UnicodeDecodeError` on a datagram that is not valid UTF-8, including one whose multi-byte character `recvfrom(1024)` cut in two. That error also escapes the `while True` loop and ends it, before the save. The model takes datagrams as text, so `Ingest` stops only at a malformed segment; this second way the loop ends is not modelled.
- The archive file is a map in memory. Opening it, `json.load`, `json.dump(indent=4)` and `seek(0)` are not modelled. Their failures are not modelled either (missing file, invalid JSON). The same goes for the tail that `seek(0)` without a truncate leaves behind when a rewrite is shorter than the file.
- `datetime.now()` is a parameter of `SaveToJson`, and the loop takes one clock reading per datagram.
- Timestamps.Format: prints `%Y` with 4 digits, as CPython's own `strftime` does. Where the platform C library formats years below 1000 without padding, such keys are shorter.
- FormData.UnquotePlus: an escape `%80`-`%FF` decodes to the code point of that byte. Python instead joins the bytes as UTF-8 and replaces invalid sequences with U+FFFD. The `data.decode()` UTF-8 step before it is not modelled: payloads are strings.
- FormData.FormEncode covers ASCII text only, so the round-trip lemmas are stated for ASCII keys and values.
- `mimetypes.guess_type` and `pathlib.Path.exists` are function parameters. The model does not compute a MIME type.
- Routing.UrlPath: models origin-form targets. `urlparse` also splits off a scheme (`a:b`) and a network location (`//host/x`), and strips tabs, line breaks and leading control characters. Those are not modelled.
- Routing.DoPost: takes `Content-Length` as `int()` already applied. The text rules of `int()` (signs, spaces, underscores) are not modelled. A missing or non-numeric header is `Err(BadContentLength)`.
- The race between two writers of the archive is not modelled (concurrency).

## Findings

| source | as written | input that shows it | evidently intended | confidence | as-written member | corrected member |
|---|---|---|---|---|---|---|
| main.py:27-54 | `do_GET` checks that `urlparse(self.path).path[1:]` exists. `send_static_file` then guesses the type of, and opens, `"." + self.path`, which includes the query and fragment | GET `/a?b` with `a` on disk and no `a?b`: the handler sends 200, then `open("./a?b")` raises | serve the file whose existence was checked | high (not executed) | Routing.QueryServesUncheckedFile | Routing.RouteGet |
| main.py:48-52 | `if mt:` tests the 2-tuple from `guess_type`, which is always true, so the `text/plain` branch is dead | a static file of unknown type: the header sent is `Content-type: None` | fall back to `text/plain` | high (not executed) | Routing.UnknownTypeSentAsNone | Routing.RouteGet |
