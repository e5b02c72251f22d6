# image_edit relay: a Dafny model of its core rules

The service behind this model takes an uploaded image and a prompt, sends
both to a multimodal chat-completion endpoint, and hands back the model's
text and generated images. A small demonstration script saves the returned
images to disk. Under the HTTP and client plumbing sit four sequential
rules, and this project models and proves them:

- **Data URL encoding** (`encode_image_from_bytes`). The image bytes are
  base 64 encoded as in section 4 of RFC 4648. They are wrapped as
  `data:<mime>;base64,<payload>`, the data URL form of RFC 2397.
  `Base64` holds an encoder and a strict decoder. They are proved to round-trip
  and to produce exactly the padded RFC 4648 shape, with the unused bits of
  the last group zero (section 3.5 of RFC 4648). Such a payload is proved to
  be the only one that decodes to the bytes. `DataUrl` proves that the URL is
  the header followed by that payload and nothing else.
- **Upload validation** (`process_image`). The checks run in a fixed order:
  the content type first, then the 20 MiB bound, then the empty-file test.
  A missing or empty type counts as `image/jpeg`. Each failure is a 400
  rejection with its own message.
- **Reply normalisation** (`process_image_with_ai`). Empty text becomes no
  text. Each reply image entry is reduced to one value by a fixed precedence.
  The loop that appends them is an imperative method proved against a
  recursive specification.
- **Saving returned images** (`save_base64_image` and the loop over the
  reply in `test_api.py`). The string is split at its first comma. The
  extension is the MIME subtype, or `png` when there is none. Each file is
  named `image_<timestamp>_<index>.<format>`.

Modules: `Wrappers` (Option, Result), `PyStr` (the Python `str` operations
used), `Base64`, `PyValue` (parsed reply values, Python's `in` and `[]` on
them, and the exceptions those raise), `DataUrl`, `Upload`, `Reply`,
`Process` (the relay and the route) and `SaveImage`.

Inputs from outside the program are parameters:

- The completion endpoint is a function from the request sent to the outcome
  of the call.
- Clock readings are strings.
- The success of each file write is a boolean for each call.

One branch of the route is never taken for a failed relay call.
`process_image` has an `except Exception` branch that builds a body with
`status: "error"` (main.py:182-187). But `process_image_with_ai` turns every
failure of the call and of the reply handling into an `HTTPException` with
status 500 (main.py:104-105). The route re-raises every `HTTPException`
(main.py:180-181), so a relay failure never reaches the error body.
`Process.ProcessImage` proves that the route either answers with a success
body or raises. `Process.Wrap` still models the `except Exception` branch.

## Model

| member | source | states |
|---|---|---|
| Base64.Encode | main.py:43 | the encoding of n bytes has exactly 4 * ceil(n / 3) characters |
| Base64.EncodeIsEncoded | main.py:43 | every encoding uses only the RFC 4648 alphabet, with `=` padding only in the last one or two positions, and two pads when the second-to-last is one |
| Base64.DecodeEncode | main.py:43 | decoding the encoding of any byte sequence gives back exactly those bytes |
| Base64.EncodeInjective | main.py:43 | distinct byte sequences have distinct encodings |
| Base64.ShortTestVectors | main.py:43 | the encoder gives the RFC 4648 section 10 results for "", "f", "fo", "foo" |
| Base64.LongTestVectors | main.py:43 | the encoder gives the RFC 4648 section 10 results for "foob", "fooba", "foobar" |
| Base64.CharToIndex | test_api.py:84 | each alphabet character maps back to the value whose table entry it is |
| Base64.EncodeUnusedBitsZero | main.py:43 | in every encoding, the bits of the last character that padding leaves unused are zero |
| Base64.CanonicalEncodingUnique | main.py:43 | a well-formed string with zero unused bits that decodes to some bytes is the encoding of those bytes, so the encoder's output is the only such string |
| Base64.Decode | test_api.py:84 | a successful decode is of a string whose length is a multiple of four, and yields at most three bytes per group of four characters |
| Base64.DecodeAcceptsExactlyEncoded | test_api.py:84 | the decoder succeeds exactly on strings of the padded RFC 4648 shape |
| Base64.DecodeLength | test_api.py:84 | a successful decode yields three bytes per group of four characters, less one per padding character |
| DataUrl.EncodeImageFromBytes | main.py:41-44 | the URL is `data:` + content type + `;base64,` followed by a well-formed payload of 4 * ceil(n / 3) characters, with zero unused bits, that decodes to the image bytes |
| DataUrl.SplitAtFirstComma | main.py:41-44 | for a content type without a comma, the first comma of the URL ends the header, and the part after it decodes to the image bytes |
| Upload.EffectiveType | main.py:145 | a missing or empty declared type becomes `image/jpeg`; any other declared type is kept |
| Upload.Validate | main.py:144-163 | accepts exactly an allowed type with a size in 1..20 MiB; a bad type is rejected whatever the size, then an oversize file, then an empty one |
| Upload.SizeBoundary | main.py:153-160 | with an allowed type, exactly 20 MiB is accepted and 20 MiB + 1 byte is rejected as too large |
| Upload.MissingTypeDefaultsToJpeg | main.py:145-146 | an upload with no type or an empty type is accepted as `image/jpeg` |
| Upload.Detail | main.py:147-163 | the type message starts with the prefix and the offending type and ends with the allowed types joined by `, `; the size message is `文件太大. 最大允许大小: 20.0MB`; the empty-file message is `文件为空` |
| Upload.MaxSizeInMiB | main.py:153-159 | the limit of 20 * 1024 * 1024 bytes is written as `20.0` MiB |
| Upload.DetailsDistinct | main.py:147-163 | the three rejection messages differ from each other, and the type message names the offending type |
| Upload.AllowedTypesListed | main.py:144-149 | the unsupported-type message lists `image/jpeg, image/png, image/gif, image/webp` |
| PyValue.Contains | main.py:97 | `key in v` succeeds exactly on a dict, str or list; for a dict it is key membership |
| PyValue.GetItem | main.py:98 | `v[key]` yields a value exactly for a dict holding the key; a dict without it raises KeyError |
| Reply.TextResponse | main.py:84 | the text is reported exactly when it is present and non-empty, and then unchanged |
| Reply.ExtractImage | main.py:91-100 | a str entry is kept as is; a non-dict entry yields nothing; in a dict `b64_json` wins, then `image_url['url']` when `image_url` is a dict holding `url`; any value yielded is `b64_json`, `image_url['url']` or `data`; an entry yielding nothing has neither `b64_json` nor `data` |
| Reply.Normalise | main.py:89-100 | never more images than entries, and the list fails whenever some entry raises |
| Reply.YieldingPositions | main.py:90-100 | the positions of exactly the entries that yield an image, in increasing order |
| Reply.NormaliseImages | main.py:89-100 | the in-place append loop produces the recursive specification `Normalise` of the entries, or its first exception |
| Reply.NormaliseKeepsOrder | main.py:90-100 | the k-th image is the value picked from the k-th entry that yields one; all other entries are dropped; never more images than entries |
| Reply.NormaliseFailsAtFirstRaise | main.py:90-100 | a failed normalisation carries the exception of an entry that raised, and every entry before it was handled |
| Reply.NormaliseStopsAtRaise | main.py:90-100 | once an entry raises, the entries after it change nothing |
| Reply.StringsKeptAsIs | main.py:91-92 | a reply whose entries are all strings yields exactly those strings |
| Reply.B64JsonFirst | main.py:95-98 | `{b64_json: X, image_url: {url: Y}}` yields X |
| Reply.ExtractImageRaises | main.py:95-100 | an entry raises exactly when it is a dict without `b64_json` whose `image_url` is not a dict and either is no container or is a str or list holding `'url'` |
| Process.BuildRequest | main.py:51-79 | the request goes to the configured URL with the configured key and model, as one user message whose first part is the prompt and whose second is a data URL with the content type's header and a payload decoding to the image bytes |
| Process.Relay | main.py:82-105 | every failure is a 500 whose detail starts with the failure prefix; a call failure keeps its message; no choice gives the IndexError text; otherwise the call succeeds exactly when the first choice's images normalise, the images are that normalised list and the text is the first choice's text under the emptiness rule |
| Process.ProcessImageWithAi | main.py:47-105 | sends the prompt and then the image as a data URL; the result is `Relay` of what the endpoint returns |
| Process.Wrap | main.py:165-187 | a result becomes a success body with no error; an HTTPException is re-raised unchanged; any other exception becomes an error body with no text or images and the message as `error` |
| Process.ProcessImage | main.py:127-187 | a rejected upload raises its 400 and sends nothing; an accepted upload sends one request whose image payload decodes to the upload; the route answers exactly when the relay succeeds, with the success body holding the relay's text and images and the time; otherwise it raises the relay's exception; never an error body |
| SaveImage.FormatOf | test_api.py:72-75 | the format is the longest run after the header's first `/` containing neither `/` nor `;`, or `png` when the header lacks `/` or `;` |
| SaveImage.SubtypeFieldUnique | test_api.py:72-73 | that run is uniquely determined by the header |
| SaveImage.ParseImageString | test_api.py:67-78 | without a comma the whole string is the payload and the format is `png`; otherwise the payload is everything after the first comma and the format comes from the text before it |
| SaveImage.FileName | test_api.py:80 | the name is `image_<timestamp>_`, then the decimal digits of the index with no leading zero, then `.` and the format |
| SaveImage.PathFor | test_api.py:80 | the path is the output directory, `/`, then the file name |
| SaveImage.FileNamesDistinct | test_api.py:80 | with the same timestamp, different indices give different file names whatever the formats |
| SaveImage.SaveBase64Image | test_api.py:63-94 | a file is written exactly for a str whose payload decodes and whose write succeeds, at `<dir>/image_<ts>_<index>.<format>` with the decoded bytes; a str never raises; other values raise exactly when no container or a list or dict holding `','` |
| SaveImage.SelectArgument | test_api.py:102-113 | a str entry is passed as is; an entry is skipped exactly when it is neither a str nor a dict holding `b64_json`, `image_url` or `data`; selection raises exactly for a dict without `b64_json` whose `image_url` is not a dict holding `url` |
| SaveImage.SavePass | test_api.py:99-113 | one pass of the loop selects the argument and saves it as the specification `Attempt` of that entry says |
| SaveImage.Step | test_api.py:99-113 | one pass only appends to the files written, at most one file, and changes nothing once the script has stopped |
| SaveImage.SaveAll | test_api.py:97-113 | the loop writes at most one file per entry |
| SaveImage.SaveImages | test_api.py:97-113 | the loop over the entries produces the writes and the stopping exception given by the specification `SaveAll` |
| SaveImage.SaveAllStopsAtAbort | test_api.py:97-113 | after the exception that ends the script, later entries write nothing |
| SaveImage.SaveAllWritesByPass | test_api.py:99-113 | every file written is exactly what the pass over the entry with its index saved |
| SaveImage.SaveAllIndicesIncrease | test_api.py:99-113 | the files are written in entry order: their indices strictly increase |
| SaveImage.SaveAllWritesInOrder | test_api.py:99-113 | at most one file per entry, in entry order, and each file is exactly what its entry's pass saved |
| SaveImage.SaveAllAppends | test_api.py:99-113 | a pass that runs before the script stops and saves a file appends exactly that file |
| SaveImage.EverySaveIsWritten | test_api.py:97-113 | conversely, every pass before the stopping exception whose save succeeds has its file among the files written |
| SaveImage.AttemptIsNamed | test_api.py:80-111 | a file that a pass saves carries the pass's index and is named `image_<clock(i)>_<i>.<format>` for some format |
| SaveImage.DistinctPathsWithinOneSecond | test_api.py:65-80 | when every clock reading is the same, no two written files share a path |
| SaveImage.FormatOfDataUrlHeader | test_api.py:72-73 | the header `data:<kind>/<subtype>;base64` of a plain MIME type gives `<subtype>` as the format |
| SaveImage.SavesEncodedImage | test_api.py:63-94 | saving the data URL that `encode_image_from_bytes` builds gives the subtype as extension and writes exactly the original bytes |
| SaveImage.SamePrecedenceAsRelay | test_api.py:102-113 | the script picks the same value from an entry as the relay, unless the entry's `image_url` (with no `b64_json`) is not a dict holding `url` |
| SaveImage.PrecedenceDiffersOnImageUrlWithoutUrl | test_api.py:108-111 | for `{image_url: {}, data: "QUJD"}` the relay takes `data` while the script raises KeyError('url') |
| PyStr.IndexOf | test_api.py:68-70 | the position of the first occurrence of a character |
| PyStr.SplitOnce | test_api.py:70 | `s.split(c, 1)` gives a `c`-free head and a tail that rejoin to `s` |
| PyStr.Split | test_api.py:73 | `s.split(c)` gives at least one `c`-free piece, and the pieces rejoin to `s` |
| PyStr.SplitFirstField | test_api.py:73 | `s.split(c)[0]` is the longest `c`-free prefix of `s` |
| PyStr.SplitSecondField | test_api.py:73 | `s.split(c)[1]` is the longest `c`-free prefix after the first `c` |
| PyStr.DigitsValueOfNatToString | test_api.py:80 | reading back the decimal rendering of the index gives the index |
| PyStr.NatToStringInjective | test_api.py:80 | distinct indices render as distinct strings |

## Left out

- FastAPI setup, the CORS middleware and the `/`, `/api` and `/health` routes (main.py:13-26, 108-124, 190-198): web plumbing with no rule to state.
- The OpenAI client and the `chat.completions.create` call (main.py:51-79, test_api.py:18-49): the endpoint is a function parameter from the request to the call's outcome.
- `await file.read()`, `print`, `open`/`write` and `mkdir`: I/O. The upload is its byte sequence. A file write is a recorded `Write` whose success is a parameter.
- `encode_image` in test_api.py (10-16): the same encoding as `encode_image_from_bytes`, but it reads the bytes from a file and guesses the type with `mimetypes`. Both of those are library I/O.
- `datetime.now()` in both files: clock readings are string parameters. In the script, the i-th save reads `clock(i)`.
- Upload.MaxSizeInMiB: `max_size / 1024 / 1024` is a float division in Python. The model divides whole numbers and appends `.0`. That gives the same text because the limit is a whole number of MiB.
- SaveImage.SaveBase64Image: decoding is strict RFC 4648. Python's `b64decode` first discards characters outside the alphabet. So a payload with whitespace or other stray characters, which Python might still save, gives `NotSaved` here.
- Reply.NormaliseImages, SaveImage.SaveImages: the `images` field is a list or absent. A str or dict there, which Python would iterate character by character or key by key, is not modelled.
- PyValue.Value: JSON numbers are integers. A float entry behaves the same, except that its TypeError text would name `float`.
- Exception texts are CPython's wording for the few built-in exceptions involved. Text from the endpoint's own exceptions is passed through as given.
- The pydantic response model's serialisation and the HTTP status of a normal answer.
- config.py: settings loaded from the environment, with three default strings. They are passed in as `Process.Settings`.
- The module-level script flow in test_api.py apart from the image loop: the call, creating the directory, printing the text.
