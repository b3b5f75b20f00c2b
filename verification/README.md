# updateDecodeTest — fixture refresher model

`updateDecodeTest.py` keeps the JSON fixtures in the Elm test file
`tests/Mbta/DecodeTest.elm` up to date. It reads the file line by line and
copies every line to an output buffer. A line that starts with sixteen spaces
and `"http` opens a fixture block of four lines:

- a URL line;
- an opening `"""` delimiter;
- the saved JSON (the data line);
- a closing `"""` delimiter.

For each block the script fetches the URL, adding the optional `api_key`
query parameter. It then checks both delimiters exactly and replaces the data
line with the fresh body. In the body, every backslash is doubled so that the
body is a valid Elm string. A 404 keeps the old data line. Any other failure,
or a wrong delimiter, stops the script before anything is written. The file
is rewritten only at the end of the input.

The Dafny project models this in six modules:

- `Wrappers`: `Option`.
- `Text`: counting a character in a string.
- `Escaping`: the backslash escape of line 68, with its inverse `Unescape` as its partner.
- `ApiKey`: `addApiKey`. Its partner is a reading of a URL's query string (`SplitQuery`, `SplitParams`, `QueryParams`) that states what the added key means.
- `Fetching`: one GET. The network is a function from the requested URL to a `Response`, and `Fetch` classifies each answer as `Fetched`, `NotFound` or `Error`.
- `Refresh`: the scan, plus a description of the file's structure that does no fetching.
  - The file is a `seq<Line>` of non-empty lines. `ReadLine` returns `""` past the end, which is how `readline` signals end of file.
  - `RefreshFrom` is the scan as a pure function. It returns `Written(lines)` or `Aborted(failure)`.
  - `RefreshFile` is the script's own `while True` loop. It is proved equal to the pure scan.
  - `Layout` gives every line a role (`Plain`, `Url`, `Opening`, `Data`, `Closing`). It steps through the file as the scan does, one line or a four-line block at a time, but it fetches nothing and checks no delimiter. Its contract and lemmas say what the roles mean: `LayoutFits` ties each role to the line it is given, `LayoutBlocks` says roles come in whole blocks, and `Layout`'s own contract says that roles past the last line can only be the delimiter and data roles of a block the file cuts short. The main lemmas relate the scan to this layout: what is written, exactly when a run succeeds, why it aborts, and that refreshing the written list again changes nothing.

Where this differs from a plain reading of the script's intent, the model
follows the code:

- After a URL whose query ends in `&`, `addApiKey` still adds `&api_key=…`, so the separator is doubled.
- The URL is fetched (line 60) before the opening delimiter is checked (line 63). If the fetch fails on a malformed block, the run aborts with the fetch failure.
- `if newData:` is false for an empty body. So a 200 response with an empty body keeps the old data line, exactly like a 404.

## Model

| member | source | states |
|---|---|---|
| Escaping.Escape | updateDecodeTest.py:68 | the escaped body is never shorter than the body and at most twice as long |
| Escaping.EscapeCounts | updateDecodeTest.py:68 | escaping lengthens the body by one character per backslash, doubles the number of backslashes and leaves every other character, in order, as it was |
| Escaping.EscapeAppend | updateDecodeTest.py:68 | the replacement works character by character: escaping a concatenation is the concatenation of the escapes |
| Escaping.UnescapeEscape | updateDecodeTest.py:68 | undoing the doubling gives back the fetched body exactly, so no information is lost |
| Escaping.EscapeUnescape | updateDecodeTest.py:68 | every string that unescapes to a body is that body's escape, so the escape is the only encoding with this inverse |
| Escaping.EscapeInjective | updateDecodeTest.py:68 | different bodies are never written as the same data |
| Escaping.EscapeUnchangedIff | updateDecodeTest.py:68 | a body is written unchanged if and only if it holds no backslash |
| Escaping.EscapeOneBackslash | updateDecodeTest.py:68 | a single backslash inside otherwise plain text becomes exactly two backslashes in the same place |
| ApiKey.Separator | updateDecodeTest.py:16-22 | the separator is `?` exactly when the URL has no `?`, empty exactly when the URL has one and ends with it, and `&` exactly when it has one and ends otherwise (then after a non-empty query) |
| ApiKey.AddApiKey | updateDecodeTest.py:14-24 | without a key the URL is unchanged. With a key, the result is the URL, then exactly the separator `Separator` picks (`?`, nothing or `&`), then `api_key=<key>`, and it has a query |
| ApiKey.AppendsParameterWithoutQuery | updateDecodeTest.py:21-22 | for a URL without `?` or `#`, adding `?` and a parameter keeps the part before the query and makes that parameter the only one |
| ApiKey.AddApiKeyAppendsParameter | updateDecodeTest.py:14-24 | for a key without `&` or `#` and a URL without a `#` fragment, the part of the URL before the query is unchanged and the query's parameters become the old ones followed by exactly `api_key=<key>` |
| Fetching.Fetch | updateDecodeTest.py:29-39 | the request goes to the key-augmented URL. A body is returned as is, a 404 and only a 404 gives NotFound, and every other status or failure gives Error |
| Refresh.ReadLine | updateDecodeTest.py:49-50 | reading yields the empty string exactly at end of file |
| Refresh.IsUrlLine | updateDecodeTest.py:58 | a fixture URL line starts with the sixteen-space indent, a quote and `http`, so it has at least 21 characters |
| Refresh.UrlOf | updateDecodeTest.py:58-59 | the URL is what is left of the line after its first 17 characters and its last 2 are removed |
| Refresh.UrlOfQuotedUrlLine | updateDecodeTest.py:58-59 | a quoted URL line is recognised as a fixture if and only if the URL starts with `http`, and its URL then reads back unchanged. The converse, `QuotedUrlLineOfUrl`, rebuilds every recognised line ending in a quote and a newline from its URL |
| Refresh.RenderData | updateDecodeTest.py:68-69 | the new data line is the sixteen-space indent, then a middle that unescapes to the body, then a newline. The middle is therefore exactly the escaped body, by `EscapeUnescape` |
| Refresh.NewDataLine | updateDecodeTest.py:66-71 | a non-empty fetched body gives an indented, newline-terminated line that unescapes to the body. A 404 or an empty body keeps the old line |
| Refresh.RefreshFrom | updateDecodeTest.py:48-75 | the scan from a given line on. Whatever it writes has exactly as many lines as remain to be read |
| Refresh.UpdateDecodeTest | updateDecodeTest.py:29-75 | the whole script with the key and the network. A written file has the input's length, and every line that is not a data line is copied unchanged |
| Refresh.Layout | updateDecodeTest.py:57-75 | every line gets one role, and a URL line takes four. The roles cover the file; the at most three roles past its end are all delimiter or data roles, the missing lines of a cut-short last block |
| Refresh.LayoutFits | updateDecodeTest.py:57-59 | every line marked plain is not a URL line, and every line marked as a URL is a URL line carrying that URL |
| Refresh.LayoutBlocks | updateDecodeTest.py:58-75 | roles come in whole blocks: URL, opening delimiter, data for the same URL, closing delimiter |
| Refresh.LayoutIgnoresData | updateDecodeTest.py:66-71 | two files that differ only in their data lines have the same layout |
| Refresh.RefreshOutput | updateDecodeTest.py:48-75 | a written file has as many lines as the input. Every line except a data line is copied unchanged, and each data line is replaced according to the fetch of its block's URL |
| Refresh.RefreshSucceedsIff | updateDecodeTest.py:48-75 | the file is written if and only if every block is complete, both of its delimiters are exact, and no fetch fails |
| Refresh.RefreshAbortReason | updateDecodeTest.py:58-74 | an abort names either a delimiter position whose line is wrong or missing, or a fixture URL whose fetch failed |
| Refresh.RefreshIdempotent | updateDecodeTest.py:48-75 | refreshing the list of lines a run wrote, against the same answers, gives that list back unchanged |
| Refresh.RefreshFile | updateDecodeTest.py:48-75 | the read loop with its output buffer produces exactly the result of the scan, and a written file has as many lines as the input |
| Refresh.UpdateKeepsDataOnNotFound | updateDecodeTest.py:34-37 | a fixture whose key-augmented URL answers 404 keeps its old data line byte for byte |
| Refresh.UpdateWritesFetchedBody | updateDecodeTest.py:66-69 | a fixture whose URL answers with a non-empty body gets the indented, escaped body as its data line |
| Refresh.UpdateAbortsOnServerError | updateDecodeTest.py:38-39 | any failure other than 404 on any fixture URL stops the run with nothing written |
| Refresh.SingleBlock | updateDecodeTest.py:48-75 | a one-block file fetched without a key comes back with only its data line replaced by the escaped body |

## Left out

- Network access (`urllib.request.urlopen`): the server is the parameter `network`, a function from URL to `Response`. Timeouts, redirects and retries are not modelled.
- UTF-8 decoding of the response body: `Response.Body` already holds the decoded text. A body that fails to decode is not distinguished from other errors; it would be a `ConnectionFailure`.
- The `fetching …` and `404 for url …` messages and the call to `exit()` are console output and process exit, not part of the result.
- Reading the key from `sys.argv` (lines 9-12): the key is the parameter `apiKey`.
- File handling (lines 42-43 and 52-55): the fixed path, opening and closing. Reading is indexing a `seq<Line>`. Writing is returning `Written(lines)`, the list handed to `writelines`. An abort (Python's `AssertionError` or `HTTPError`) returns `Aborted` and writes nothing, as the script writes only at end of file.
- A fetched body may itself contain newlines. Its data line is then one element of the output list that spans several lines of the file. The model keeps the list as the script builds it.
- ApiKey.AddApiKeyAppendsParameter: it is stated only for URLs whose query does not end in `?`, for URLs without a `#` fragment, and for keys without `&` or `#`. After a query ending in `?` the script appends `api_key=` with no separator, so the key becomes part of the last parameter. A key containing `&` splits into several parameters. Fragments are not modelled: the script appends the key after a `#`, so it lands in the fragment, which is never sent to the server, and a `#` in the key cuts it short in the same way.
- Refresh.RefreshIdempotent: it is about the list of lines a run hands to `writelines`, not about the file read back with `readline`. A fetched body containing `\n` (or `\r`, through text-mode newline handling) becomes several lines when the file is read again. A second run of the script on that file then finds the body's second line where it expects the closing delimiter, and aborts.
- The exact interleaving of reads and appends in the loop: `RefreshFile` reads the old data line and the closing delimiter before it appends the data line, while the script appends in between. The appended lines are thrown away on an abort, so the written result is the same.
