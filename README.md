# ragclarify: loader dispatch, title truncation and stream framing

ragclarify is a small Streamlit tool that turns an uploaded document or a
fetched web page into text chunks for retrieval-augmented generation. Nearly
all of its work is done by third-party libraries: the document loaders of
`langchain_community` extract the text and langchain's
`RecursiveCharacterTextSplitter` cuts it into chunks. This project models the
logic that the repository itself implements, all of it in
`ragclarify/common.py`:

- **File-type dispatch** (`get_loader_from_file`). The path's dispatch key is the
  extension of its final component, without its dot and lower-cased, computed
  the way POSIX `os.path.splitext` does. An ordered if/elif chain maps that key
  to a loader. Two rules test the final component's name instead: names ending
  in `fake_conversations.json` or `text_array.json`. Anything else falls back to
  the generic `UnstructuredFileLoader`. Loaders appear as the datatype
  `Loaders.LoaderKind`. The JSON loader keeps its two parameters: the jq schema
  and the `text_content` flag.
- **Title truncation** (`get_title`). The text comes back whole when it is
  shorter than the limit. Otherwise the result is its first `slen` characters
  plus `...`. This happens even when the text is exactly `slen` long.
- **Streamed-response framing** (the loop in `openai_text_generate`). It decides
  which lines of an event-stream response hand a payload to the JSON parser,
  and where the stream is cut off. A line starting with `data:` always loses its
  first six characters, whether or not the sixth is a space. The stop rule only
  applies to a line that contains `data: [DONE]` but does not start with
  `data:`. A line that starts with `data: [DONE]` is a data line instead. It
  hands `[DONE]` to the parser, which rejects it, and the stream goes on.

Modules: `PyStr` (`py_str.dfy`) holds the Python string operations used:
`startswith`, `endswith`, `in`, clamped slices and ASCII `lower`. `PosixPath`
(`posix_path.dfy`) holds `os.path.basename` and `os.path.splitext`, with a contract
that fully determines the extension. `Loaders` (`loaders.dfy`) holds the
dispatch. `Titles` (`titles.dfy`) holds `get_title`. `StreamFraming`
(`stream_framing.dfy`) holds the framing: a method with a loop, proved against the
recursive specification `Payloads`.

The dispatch is an if/elif chain in the code, not a lookup table. Its
extension rules are disjoint, and the two name rules can only fire on `.json`
files. So the chain equals a table from extension to loader, with the JSON case
and the fallback kept apart. The contract of `Loaders.LoaderFromFile` states
this for every path. The name rules are part of the dispatch even though a plain
extension-to-extractor table would leave them out. The model follows the code.

## Model

| member | source | states |
|---|---|---|
| PyStr.StartsWith | ragclarify/common.py:75 | `s.startswith(prefix)`: `prefix` is no longer than `s` and equals its first characters (a definition) |
| PyStr.EndsWith | ragclarify/common.py:126-128 | `s.endswith(suffix)`: `suffix` is no longer than `s` and equals its last characters (a definition) |
| PyStr.ContainsAt | ragclarify/common.py:84 | `sub in s` holds exactly when `sub` occurs in `s` at some index |
| PyStr.Drop | ragclarify/common.py:77 | `s[n:]`: the suffix of `s` of length `len(s) - n`, empty once `n` runs past the end |
| PyStr.Take | ragclarify/common.py:162 | `s[:n]`: a prefix of `s` of length `min(n, len(s))`, or `max(0, len(s) + n)` for a negative `n` |
| PyStr.Lower | ragclarify/common.py:104 | same length, each character lower-cased (ASCII) |
| PosixPath.RFind | ragclarify/common.py:104 | `s.rfind(c)`: -1 or an index holding `c`, with no `c` after it |
| PosixPath.Basename | ragclarify/common.py:126-128 | a suffix of the path that holds no `/` and, when shorter than the path, follows a `/` |
| PosixPath.SplitExt | ragclarify/common.py:104 | root + ext is the path: `splitext` only cuts it in two |
| PosixPath.SplitExtSpec | ragclarify/common.py:104 | a non-empty ext is a suffix of the final component that starts at its last dot, with a non-dot character before that dot; an empty ext means every dot of the final component has only dots before it |
| PosixPath.ExtensionUnique | ragclarify/common.py:104 | the extension of a final component is unique and excludes "no extension", so the contract of SplitExt determines the key |
| PosixPath.ExtensionOfBasename | ragclarify/common.py:104 | the extension of a path is the extension of its final component |
| PosixPath.ExtensionLower | ragclarify/common.py:104 | lower-casing a path lower-cases its extension and moves nothing else |
| Loaders.FileType | ragclarify/common.py:104 | the dispatch key is lower-case and holds no dot |
| Loaders.Dispatch | ragclarify/common.py:105-145 | the if/elif chain as written, rule by rule in the source's order, over the key and the final component; it has no contract of its own, and DispatchIsTable states what it selects |
| Loaders.LoaderFromFile | ragclarify/common.py:103-149 | for every path: a recognised extension selects its one table entry, `json` is settled by the name rules, and every other key gets the generic loader |
| Loaders.FileTypeIgnoresCase | ragclarify/common.py:104 | the dispatch key of the lower-cased path is the dispatch key of the path |
| Loaders.DispatchOnFinalComponent | ragclarify/common.py:103-104 | directories on the path change neither the key nor the selected loader |
| Loaders.DispatchIgnoresCase | ragclarify/common.py:104-125 | final components equal up to ASCII case select the same loader, unless the key is `json` (REPORT.PDF and report.pdf both get PyMuPDF) |
| Loaders.TableEntries | ragclarify/common.py:105-145 | no extension rule handles `json` or the empty key, and none selects the JSON, ChatGPT or generic loader |
| Loaders.DispatchIsTable | ragclarify/common.py:105-145 | whenever a special name comes with the `json` key, the if/elif chain gives what the extension table gives |
| Loaders.TableDispatchSelects | ragclarify/common.py:126-145 | in the table reading, ChatGPT, text-array JSON and messages JSON are each selected exactly when the key is `json` and the name rule matches; the generic loader exactly when the key is neither in the table nor `json`, so always for the empty key |
| Loaders.SpecialNamesAreJson | ragclarify/common.py:126-133 | a final component ending in either special name has the key `json`, so no earlier extension rule can take it |
| Loaders.SpecialNamesExclusive | ragclarify/common.py:126-129 | no final component ends in both special names |
| Loaders.SpecialNamesSelect | ragclarify/common.py:126-129 | ChatGPT loader iff the final component ends in `fake_conversations.json`; JSON loader with `.[]` and text_content=True iff it ends in `text_array.json` |
| Loaders.PlainJsonSelectsMessages | ragclarify/common.py:130-133 | the JSON loader with `.messages[].content` and text_content=False iff the key is `json` and neither special name matches |
| Loaders.FallbackExactlyWhenUnrecognised | ragclarify/common.py:144-145 | UnstructuredFileLoader iff the key is neither in the table nor `json` |
| Loaders.NoExtensionFallsBack | ragclarify/common.py:104-145 | a final component without an extension gets UnstructuredFileLoader |
| Loaders.UpperCaseJsonIsPlain | ragclarify/common.py:126-133 | the name rules are case-sensitive: a final component ending in `.JSON` with a non-dot character before that dot gets the messages loader, even `TEXT_ARRAY.JSON` |
| Loaders.HiddenFileFallsBack | ragclarify/common.py:104-145 | a final component that is a dot followed by a dot-free name (`.pdf`, `.csv`) has no extension and gets UnstructuredFileLoader, not the loader its name suggests |
| Titles.GetTitle | ragclarify/common.py:159-162 | the text unchanged when slen exceeds its length; otherwise length slen + 3, the first slen characters of the text, then `...`; a negative slen counts from the end as a Python slice does |
| Titles.FullLengthStillMarked | ragclarify/common.py:160-162 | a text exactly slen long still gets `...` appended |
| Titles.TitleIdempotent | ragclarify/common.py:159-162 | for slen >= 0 the title of a title is the title |
| Titles.RetitleNegativeLength | ragclarify/common.py:159-162 | for a negative slen the ellipsis counts in the second cut: the title of a title is longer than the title for -3 < slen < 0, equal to it for slen = -3, and no longer for slen < -3 |
| StreamFraming.Classify | ragclarify/common.py:74-85 | a line hands a payload exactly when it starts with `data:` and is longer than 6 characters, the payload being all after the sixth character; a line stops the stream exactly when it does not start with `data:` and contains `data: [DONE]` |
| StreamFraming.Payloads | ragclarify/common.py:73-85 | the payloads handed to the parser, in order, up to the first stop line: at most one per line |
| StreamFraming.Decoded | ragclarify/common.py:76-83 | no more objects are yielded than there are payloads |
| StreamFraming.DecodedMembers | ragclarify/common.py:76-83 | an object is yielded iff the parser accepts some payload with it: no successful decoding is lost and nothing else is yielded |
| StreamFraming.DecodedAppend | ragclarify/common.py:76-83 | yielding keeps the payloads' order: the objects of one stretch of payloads come before those of the next |
| StreamFraming.DecodedOne | ragclarify/common.py:76-83 | a single payload yields its decoding when `json.loads` accepts it and nothing when it raises |
| StreamFraming.FirstStop | ragclarify/common.py:84-85 | the index of the first stop line: no line before it stops, and it is a stop line unless it is the end |
| StreamFraming.FrameLines | ragclarify/common.py:73-85 | the loop hands the parser exactly Payloads(lines) and yields exactly the successful decodings of those, in order |
| StreamFraming.PayloadsAppend | ragclarify/common.py:73-85 | framing is incremental: the lines after a chunk count only when the chunk holds no stop line |
| StreamFraming.PayloadsStopAtFirstStop | ragclarify/common.py:84-85 | nothing after the first stop line reaches the parser, and there are no more payloads than lines before it |
| StreamFraming.PayloadOrigin | ragclarify/common.py:75-81 | a string reaches the parser iff some line before the first stop line is a data line carrying it as its non-empty payload |
| StreamFraming.DoneDataLineDoesNotStop | ragclarify/common.py:75-79 | a line starting with `data: [DONE]` is a data line whose payload `[DONE]...` goes to the parser |
| StreamFraming.SixthCharacterDropped | ragclarify/common.py:77 | whatever follows `data:`, one character is dropped: `data:{"a":1}` hands over `"a":1}` |
| StreamFraming.SpacedDataLineCarriesValue | ragclarify/common.py:77-81 | `data: ` plus a value hands over exactly that value; an empty value is skipped without stopping |

## Left out

- `split_docs` and the chunking (ragclarify/ragclarify.py:15-32): the splitter is langchain's `RecursiveCharacterTextSplitter`, a foreign library whose source is not part of this model; the temporary-file write and `loader.load()` are I/O.
- `main` (ragclarify/ragclarify.py:35-143): Streamlit UI, session state and downloads.
- `check_apptoken_from_apikey`: its substance is `jwt.decode`, a foreign cryptographic call.
- `get_global_datadir` and `fetch_page`: environment lookups, directory creation and network I/O.
- The HTTP request and status check of `openai_text_generate`: network I/O. `response.iter_lines()` and the UTF-8 decoding of each line are not modelled either; the framing starts from the decoded lines.
- `json.loads`: the `decode` parameter of `StreamFraming.FrameLines`, a total function returning `None` where the parser raises `JSONDecodeError`; the printed error message is left out.
- `StreamFraming.FrameLines`: returns the complete sequences instead of yielding lazily, so the interleaving of the generator with its consumer is not modelled.
- `write_stream_text`: UI rendering.
- The `print` calls of `get_loader_from_file`, and the loader objects themselves: each is built over the unchanged path and is named only by its `LoaderKind`.
- `PyStr.Lower`: ASCII lower-casing only; Python's Unicode-aware `str.lower` also changes non-ASCII letters.
- `PosixPath`: POSIX path rules only (`/` as the only separator); Windows paths are not modelled.
