# gorag core in Dafny

gorag is a small retrieval-augmented-generation service in Go. It stores
vectors in Qdrant, asks a llama.cpp server for embeddings, and relays the
server's streamed chat completions to a caller. This project models the few
parts of it that hold logic of their own, and proves what they promise:

- **Collection naming** (`getCollectionFromModel`). The Qdrant collection for
  a model file is the file's base name with the path's last extension
  trimmed, and each of `_ % $ .` replaced by `-`. Go's `path.Base`,
  `path.Ext`, `strings.TrimSuffix` and `strings.Split` are modelled as pure
  functions with their documented behaviour (modules `GoPath` and
  `Strings`).
- **The engine** (`GoRagEngine`, `NewEngine`, `Setup`, `getEmbeddings`).
  `Setup` records the embedding server, then checks that the Qdrant address
  has the form `HOST:PORT`, then connects a client. The proofs say which
  fields change on each path.
- **The llama engine** (`LlamaEngine`).
  - `GetEmbeddings` copies the decoded response into `llamaEmbeddings` with
    an index loop over an array.
  - `GetCompletions` reads `\n`-terminated lines with a buffered reader
    (class `Bufio.LineReader`). It hands each line to a callback until a read
    or the callback fails.
  - The lines handed over are specified by the functions `Lines`, `Tail` and
    `Delivered`. Lemmas prove that these lines are whole lines, come in
    stream order, form a prefix of the body and stop at the first refusal.
- **The Qdrant handle** (`QdrantRag`, `NewQdrantRag`, `GetPoints`). It covers
  the host and port defaults, the client bound to exactly the stored
  address, and the fixed search request.

Calls into code outside these files are function-typed parameters. A call
returns a value or a Go `error`, written `Result`:

- the HTTP and JSON round trips: `fetch` for embeddings, `connect` for the
  completion stream;
- `qdrant.NewClient`, as `newClient`;
- the Qdrant `Search`, as `search`;
- `strconv.ParseInt`, as `parsePort`.

Go's nil-or-value is `Option`. A streamed response body is the finite text
the connection yields before it ends.

Where the repository's documentation and its code disagree, the model
follows the code:

- The empty model path names the collection `"-"`, not `""`, because
  `path.Base("")` is `"."`.
- The replaced characters are the ones in the expression `[_\%\$\.]`.

## Model

| member | source | states |
|---|---|---|
| Engine.ReplaceSpecial | engine/engine.go:46-48 | the replacement is one for one: same length, each `_ % $ .` becomes `-`, every other character stays at its position |
| Engine.CollectionFromModel | engine/engine.go:42-51 | the collection name is as long as the base name with the path's extension trimmed, and holds no `_ % $ .` |
| Engine.CollectionPositions | engine/engine.go:43-48 | each character of the name is the stem's character at the same position, or `-` where the stem has a special character |
| Engine.ReplaceSpecialFixes | engine/engine.go:46-48 | a string without special characters is left unchanged |
| Engine.StemAndExtension | engine/engine.go:43-44 | unless the path ends in `/`, the base name is the stem followed by the extension, and that extension holds a single `.`, at its start: only the last extension is removed |
| Engine.TrailingSlashKeepsExtension | engine/engine.go:43-44 | when the path ends in `/`, `path.Ext` of the whole path is empty, so the whole base name is kept |
| Engine.CollectionShape | engine/engine.go:43-48 | the name is `/` or contains no `/`: the directory part is dropped |
| Engine.CollectionOfEmpty | engine/engine.go:43-48 | the empty model path gives `-` |
| Engine.CollectionOfRoot | engine/engine.go:43-48 | the path `/` gives `/` |
| Engine.CollectionOfPlain | engine/engine.go:43-48 | a non-empty path without `/` or special characters is used whole |
| Engine.CollectionOfUnfit | engine/engine.go:43-48 | a string other than `/` that holds a `/` or a special character is never its own name |
| Engine.CollectionFixedPoint | engine/engine.go:42-51 | the strings mapped to themselves are exactly `/` and the non-empty strings without `/` and special characters (both directions) |
| Engine.CollectionIdempotent | engine/engine.go:42-51 | applying the function to a non-empty result gives that result again |
| Engine.CollectionOfExtensionOnly | engine/engine.go:43-48 | a path that is only an extension, like `.gguf`, gives the empty name |
| Engine.CollectionNotIdempotentOnEmpty | engine/engine.go:42-51 | `.gguf` gives `""`, and `""` then gives `-`: idempotence fails on the empty result |
| Engine.CollectionOfPathWithExtension | engine/engine.go:43-48 | `dir/stem.ext` gives the stem with its special characters replaced |
| Engine.CollectionExample | engine/engine.go:42-51 | `models/foo_bar.Q4.gguf` gives `foo-bar-Q4` |
| Engine.CollectionTrailingSlashExample | engine/engine.go:43-48 | `m/foo.bar/` gives `foo-bar` |
| GoPath.Base | engine/engine.go:43 | `path.Base` is never empty, and is `/` or free of `/` |
| GoPath.Ext | engine/engine.go:44 | `path.Ext` is empty or starts with `.` and ends the path. It has no other `.` and no `/`, and it is empty when the path ends in `/` |
| GoPath.ExtOfBase | engine/engine.go:43-44 | for a path not ending in `/`, the extension is a suffix of the base name, so `TrimSuffix` removes it |
| GoPath.BaseIsLastElement | engine/engine.go:43 | the base name ends the path once trailing slashes are dropped, and starts the path or follows a `/` |
| GoPath.BaseOfJoin | engine/engine.go:43 | the base of `dir/name` is `name` |
| GoPath.BaseOfJoinSlash | engine/engine.go:43 | the base of `dir/name/` is `name` |
| GoPath.ExtOfJoin | engine/engine.go:44 | the extension of `stem.suffix` is `.suffix` when the suffix has no `.` or `/` |
| Strings.TrimSuffix | engine/engine.go:44 | a present suffix is cut off exactly, and an absent one leaves the string unchanged |
| Strings.TrimAppended | engine/engine.go:44 | trimming a suffix that was appended gives back the original |
| Strings.SplitCount | engine/engine.go:64 | `strings.Split` yields one part more than there are separators |
| Strings.SplitJoin | engine/engine.go:64 | no part holds the separator, and joining the parts gives back the input |
| Engine.WellFormedUriIffOneColon | engine/engine.go:64-65 | the address is accepted exactly when it holds a single `:` |
| Engine.MalformedUriExamples | engine/engine.go:64-67 | `host`, `a:b:c` and `http://localhost:6333` are all refused |
| Engine.GoRagEngine.constructor | engine/engine.go:53-57 | a new engine has no client |
| Engine.GoRagEngine.Setup | engine/engine.go:59-89 | `EmbedServer` is set on every path and `LlamaServer` never changes. A malformed address returns the format error and leaves the client untouched. Otherwise the client and the result follow `qdrant.NewClient` on the host and the parsed port, and the warm-up embedding's outcome is ignored |
| Engine.GoRagEngine.GetEmbeddings | engine/engine.go:98-141 | posts to `<EmbedServer>/v1/embeddings` and returns nil exactly when the exchange succeeds, else its error |
| Bufio.LineReader.constructor | engine/llama.go:168 | a new reader starts at the beginning of the body |
| Bufio.LineReader.ReadString | engine/llama.go:170 | returns the text up to and including the next `\n` and moves past it. With no `\n` left, returns the rest, an EOF error, and sits at the end |
| Llama.ConcatLinesFrom | engine/llama.go:169-174 | from any position, the lines read followed by the tail give back the rest of the body |
| Llama.LinesFromShape | engine/llama.go:169-174 | every piece read is a line ending in its only `\n`, and the tail holds no `\n` |
| Llama.LinesDecompose | engine/llama.go:169-174 | the body is its lines followed by a tail without `\n` |
| Llama.LinesFromAt | engine/llama.go:169-174 | when a line stands at the reading position, it is the next piece read and reading goes on right after it |
| Llama.LinesOfOneLine | engine/llama.go:169-174 | a body that is one line ending in its only `\n` reads as exactly that line, with an empty tail |
| Llama.DeliveredSpec | engine/llama.go:169-180 | the lines handed over are the first lines of the stream in order. Every call before the last succeeded, and fewer than all lines go out only when the callback refused the last one |
| Llama.DeliveredAllOk | engine/llama.go:169-180 | when the callback accepts every line, every line is handed over |
| Llama.DeliveredUpToFirstFailure | engine/llama.go:176-179 | when the callback first refuses line k, exactly lines 0..k are handed over and nothing after |
| Llama.DeliveredPrefixOfBody | engine/llama.go:169-180 | the lines handed over are whole lines. Their concatenation is a prefix of the body that never reaches into the final fragment without `\n` |
| Llama.LlamaEngine.NewLlamaEngine | engine/llama.go:72-77 | the first argument becomes `EmbedServer`, the second `LlamaServer` |
| Llama.LlamaEngine.GetEmbeddings | engine/llama.go:80-135 | a failed exchange returns its error and no result. Otherwise the model name is copied, an empty `data` leaves the embeddings nil, and a non-empty one yields one vector per entry, equal to that entry's, in order |
| Llama.LlamaEngine.GetCompletions | engine/llama.go:137-183 | a failure to open the stream is returned. Otherwise the callback gets exactly `Delivered(Lines(body))`, the reader stops right after a refused line, and the result is nil even when the callback failed |
| Llama.LlamaEngine.GetCompletionsPropagating | engine/llama.go:166-182 | the same delivery, and the result is the callback's error exactly when it refused a line |
| Llama.CallbackErrorIsLost | engine/llama.go:166-182 | a callback that refuses the only line of the stream is stopped, yet `GetCompletions` returns nil |
| Llama.CallbackErrorIsReported | engine/llama.go:166-182 | in the same situation the corrected method returns the callback's error |
| Qdrant.EffectiveHost | qdrant/qdrant.go:25-27 | the host is never empty; an empty host becomes `localhost`, any other is kept |
| Qdrant.EffectivePort | qdrant/qdrant.go:29-31 | the port is positive; any port `<= 0` becomes 6334, a positive one is kept |
| Qdrant.SettledIff | qdrant/qdrant.go:25-31 | a host or port is kept exactly when it is non-empty or positive (both directions) |
| Qdrant.DefaultsIdempotent | qdrant/qdrant.go:25-31 | settling the defaults twice changes nothing more |
| Qdrant.NewQdrantRag | qdrant/qdrant.go:24-52 | the client is created for exactly the stored, defaulted host and port. On success the new handle holds that address and client. On failure the process exits with the error and no handle is returned |
| Qdrant.QdrantRag.constructor | qdrant/qdrant.go:35-39 | the handle starts with the given address and no client |
| Qdrant.PointsQuery | qdrant/qdrant.go:61-73 | the search is on the given collection with the zero vector of four components, limit 3 and payloads enabled |
| Qdrant.QdrantRag.GetPoints | qdrant/qdrant.go:58-84 | sends that fixed query whatever `text` is, returns the search error unchanged, and returns nil on any successful search |

## Left out

- HTTP transport, JSON encoding and decoding, and the response's `Close` are
  not modelled. Each exchange is one function parameter that yields the
  decoded value or the first error.
- The Qdrant client library is not modelled: `qdrant.NewClient`,
  `GetPointsClient().Search` and `Close` are parameters, and `Client` is an
  opaque type.
- `Engine.GoRagEngine.Setup`: the port is `parsePort(part)`. The
  `strconv.ParseInt(…, 10, 1)` call and its discarded error are not
  modelled, so nothing is claimed about the port's value.
- `Engine.GoRagEngine.Setup`: when `qdrant.NewClient` fails, the field is
  modelled as nil. The library's actual return value in that case is not
  part of this model.
- `Finalize` only calls the library's `Close`, so it has no model.
  `checkHealth` always returns nil and has no caller in these files.
- The logging of the points `GetPoints` finds is left out, as is all other
  logging.
- `Llama.LlamaEngine.GetCompletions`: the callback is a function of the
  lines handed over before and the current line, not a Go closure with
  hidden state. A deterministic callback with state is covered by this;
  side effects outside that history are not.
- `Llama.LlamaEngine.GetCompletions`: a transport error in the middle of the
  stream is not told apart from EOF. Both end the loop the same way, and the
  read error is only logged.
- Float32 values (embedding components, temperature) are an opaque type
  parameter `F`. The zero query vector of `GetPoints` is written with reals.
- Go strings are bytes and the model's strings are characters. Every
  character the code looks at (`/`, `.`, `:`, `\n`, `_`, `%`, `$`) is ASCII,
  so per-byte and per-character results agree.
- main.go (flags, log files, the HTTP handlers) and model/model.go (plain
  types) are not part of this model. The embedding response type is
  mirrored as `Model.EmbedResponse`.

## Findings

| source | as written | input that shows it | evidently intended | confidence | as-written member | corrected member |
|---|---|---|---|---|---|---|
| engine/llama.go:166-182 | `stream, err := reader.ReadString('\n')` declares a new `err` inside the loop. The callback's error is stored there, and the function returns the outer `err`, which line 166 set to nil | a body `"x\n"` and a callback that returns an error for every line: the callback fails, and `GetCompletions` returns nil | the callback's error is returned to the caller | high (not executed) | Llama.CallbackErrorIsLost | Llama.LlamaEngine.GetCompletionsPropagating |
