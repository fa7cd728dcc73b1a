# Chat relay over OpenAI: a Dafny model

This project models the chat core of `api_openai`, a NestJS service. The core has two parts:

- The `ChatService` is configured once. Its `chatOnce(message)` returns one completion. Its
  `chatStream(message)` is an async generator of text fragments. Each has a mock mode (a fixed
  Spanish test sentence) and a live mode (the OpenAI Responses API).
- The `ChatController` has two endpoints. `POST /chat` validates the body and answers
  `{ text }`. `GET /chat/stream` validates the `message` query parameter, sets the SSE headers
  and relays the generator to the client as server-sent events: `ready`, one `delta` per
  fragment, exactly one of `done` or `error`, then the end of the response.

Files:

- `nullish.dfy` (`Nullish`): optional values and JavaScript's `??`.
- `strings.dfy` (`Strings`): `split(' ')`, `join`, concatenation of fragments and
  `String.prototype.trim` with ECMAScript's whitespace set.
- `seqs.dfy` (`Seqs`): counting and collecting over logs.
- `chat_service.dfy` (`ChatService`): configuration, `chatOnce`, `chatStream` (mock and live)
  and reference definitions of the live stream.
- `sse.dfy` (`Sse`): the four frames, their wire text, and reading a frame back.
- `chat_controller.dfy` (`ChatController`): both endpoints. The streaming handler is a trace of
  steps: header set, generator pulled, frame written, `end`.

How the model stands in for the outside world:

- The OpenAI client is a function parameter. For a request it gives a one-shot reply, or the
  finite list of stream events plus how the stream ends.
- "Mock mode never calls the provider" reads as "the result does not depend on that parameter".
- The generator is represented by what a consumer observes: the fragments in order, then a
  normal return or a throw with an optional message.
- `JSON.stringify` is a parameter, so its escaping is not modelled.

## Model

| member | source | states |
|---|---|---|
| `ChatService.NewService` | src/chat/chat.service.ts:14-25 | Mock mode is on exactly when `USE_MOCK` is the string `"true"`. The model is `OPENAI_MODEL`, or `"gpt-5"` when unset. Outside mock mode, a missing or empty API key refuses construction with "Falta OPENAI_API_KEY en .env", and in no other case is construction refused. A live service keeps the configured non-empty key. |
| `ChatService.ChatOnce` | src/chat/chat.service.ts:28-40 | Mock mode gives the fixed sentence. Live mode sends the configured model and the message, not streaming. It gives `output_text`, or `""` when that is absent, and propagates a provider failure unchanged. |
| `ChatService.MockChatOnceIsConstant` | src/chat/chat.service.ts:30-32 | Mock `chatOnce` gives the same sentence for every message and every provider. |
| `ChatService.PullsDetermineOutcome` | src/chat/chat.service.ts:43-78 | A consumer pulls the generator once per fragment and once more, when it returns or throws. Two runs that give the same pulls are the same run: the same fragments and the same ending. |
| `ChatService.MockStreamFragments` | src/chat/chat.service.ts:45-53 | The mock generator yields exactly `"Texto "`, `"para "`, `"hacer "`, `"test "`, `"del "`, `"text "`, `"streaming "` (each word of the sentence split on `' '` with one space appended), then returns normally. |
| `ChatService.MockStreamConcat` | src/chat/chat.service.ts:46-52 | Reading all mock fragments in order gives back the sentence followed by one space. |
| `ChatService.LiveStream` | src/chat/chat.service.ts:62-77 | The live generator yields at most one fragment per upstream event. It returns normally only when the upstream was exhausted. |
| `ChatService.LiveStreamWithoutError` | src/chat/chat.service.ts:62-70 | With no `error` event, the live generator yields exactly the delta texts in upstream order (other event types are skipped) and ends as the upstream ends. |
| `ChatService.LiveStreamAbortsAtFirstError` | src/chat/chat.service.ts:62-77 | At the first `error` event the generator stops. It has yielded the delta texts of the events before that event, and it throws that event's `error.message`, or "OpenAI stream error" when absent. An empty message is kept. |
| `ChatService.LiveStreamIgnoresAfterError` | src/chat/chat.service.ts:73-76 | Events after the first `error` event, and how the upstream ends, do not change what the generator yields or throws. |
| `ChatService.ErrorFreePrefixYields` | src/chat/chat.service.ts:62-70 | Before any error event, the delta texts seen so far are a prefix of the fragments, whatever follows. |
| `ChatService.MissingDeltaYieldsEmpty` | src/chat/chat.service.ts:66-69 | A delta event without a `delta` field is not skipped. It yields an empty fragment at its position. |
| `ChatService.FirstErrorFromSome` | src/chat/chat.service.ts:62-77 | An event list that holds an `error` event has a first one. |
| `ChatService.LiveStreamSpec` | src/chat/chat.service.ts:56-77 | The live generator is fully described by the reference definitions. Without an error event it yields all delta texts and ends as the upstream does. Otherwise it stops at the first error event and throws that event's message. It returns normally exactly when the upstream is exhausted with no error event. |
| `ChatService.ChatStream` | src/chat/chat.service.ts:43-60 | Mock mode gives the mock stream for every message and provider. Live mode streams what the provider answers to a streaming request for the configured model and the message. |
| `Strings.Split` | src/chat/chat.service.ts:48 | `split(' ')` gives at least one piece, no piece contains the separator, and joining the pieces with the separator gives the input back. |
| `Strings.SplitJoin` | src/chat/chat.service.ts:48 | Splitting a join of separator-free parts gives the parts back, so split and join are inverse. |
| `Strings.ConcatAppendEach` | src/chat/chat.service.ts:49-50 | Appending a space to every word and concatenating gives the words joined by spaces, plus one final space. |
| `Strings.Trim` | src/chat/chat.controller.ts:21 | `trim()` gives the infix of the input that only whitespace surrounds and that neither starts nor ends with whitespace. It is empty exactly when the input is all whitespace. |
| `Strings.TrimUnique` | src/chat/chat.controller.ts:32 | A whitespace prefix, a tight middle and a whitespace suffix trim to exactly that middle. |
| `Strings.TrimIdempotent` | src/chat/chat.controller.ts:32 | Trimming twice is trimming once. |
| `ChatController.PostChat` | src/chat/chat.controller.ts:19-27 | It is a 400 "message is required" exactly when the body, or its message, is absent or the message is blank. Otherwise the reply is the service's answer to the trimmed message, and a service failure is a 500. |
| `ChatController.PostHelloInMockMode` | src/chat/chat.controller.ts:19-27 | In mock mode, posting `"hello"` answers the fixed sentence. |
| `ChatController.Relay` | src/chat/chat.controller.ts:35-59 | The handler, pulling the generator, produces exactly the relay trace. That trace is the three SSE headers, `ready`, then for each fragment its pull and its `delta` write, then the last pull, `done` or `error` (with `err?.message ?? 'Unknown error'`), and `end`. |
| `ChatController.StreamChat` | src/chat/chat.controller.ts:31-60 | It is rejected with "message query param is required" exactly when the query message is absent or blank, and then nothing is written. Otherwise the response is the relay of the service's stream for the trimmed message. |
| `ChatController.RelayFrames` | src/chat/chat.controller.ts:41-58 | The client receives `ready` first, then one `delta` per fragment in order, and the terminal frame last. |
| `ChatController.RelayProtocol` | src/chat/chat.controller.ts:36-59 | For every generator run: `ready` comes first. The deltas carry exactly the fragments, in order. Exactly one terminal frame is written, and it is last. `done` is written exactly when the generator returned, and `error` exactly when it threw. `end` is called once, as the last action. All headers are set before any frame. |
| `ChatController.RelayInterleaving` | src/chat/chat.controller.ts:41-51 | `ready` is written before the first pull. Each fragment's `delta` is written right after the pull that yielded it and before the next pull, so nothing is batched. The last pull is followed only by the terminal frame and `end`. |
| `ChatController.BracketedDeltas` | src/chat/chat.controller.ts:41-57 | Between `ready` and one terminal frame, the delta frames carry exactly the fragments, and only one frame is terminal. |
| `ChatController.MockStreamFrames` | src/chat/chat.controller.ts:41-51 | In mock mode, for every message, the client receives `ready`, seven deltas `"Texto "` to `"streaming "`, then `done`. |
| `ChatController.LiveFailureFrames` | src/chat/chat.controller.ts:45-58 | At an upstream `error` event the client receives the deltas before it, then one `error` frame with the upstream's message exactly, or "OpenAI stream error" when absent. |
| `ChatController.LiveBrokenFrames` | src/chat/chat.controller.ts:45-58 | When the upstream breaks before any error event, the client receives `ready`, the delta texts so far in order, then `error` with the failure's message, or "Unknown error" when it has none. |
| `Sse.BareFrameText` | src/chat/chat.controller.ts:41 | The `ready` frame's text is `event: ready\ndata: {}\n\n`, and `done` is the same with `done`. |
| `Sse.DataFrameText` | src/chat/chat.controller.ts:47-56 | The `delta` and `error` frames carry `JSON.stringify({ delta })` and `JSON.stringify({ message })` between `event: <name>\ndata: ` and the blank line. |
| `Sse.ParseRender` | src/chat/chat.controller.ts:41-56 | Every frame's text splits back into its event name and its payload. |
| `Sse.DecodeRender` | src/chat/chat.controller.ts:41-56 | Given a JSON reader that undoes `JSON.stringify`, every frame read back from its text is the frame written. In particular, distinct frames have distinct texts. |

## Left out

- The OpenAI SDK, the network and `responses.create`: the provider is a parameter. A refused or failed stream call is an upstream that breaks before any event.
- NestJS decorators, dependency injection and `ConfigService`: configuration is a record of three optional strings.
- `sleep(80)` between mock fragments: timing has no observable effect on the fragments or frames.
- The escaping done by `JSON.stringify`: it is a parameter. The round trip assumes a reader that inverts it.
- A failing `res.write` or `res.end`: writes are assumed to succeed. In the source, if writing `done` threw, the `catch` would also write an `error` frame. That path is not modelled.
- Client disconnects, back-pressure and concurrent requests.
- Non-string `message` values (an array query parameter, a numeric body field): `trim` would throw a `TypeError`, which becomes a 500 outside this model.
- The body of Nest's 400 and 500 responses: only the status and the message are kept.
- `Strings.IsJsWhitespace`: the Unicode category Zs is listed as of Unicode 15.
- JavaScript strings are sequences of UTF-16 code units, while a Dafny `string` is a sequence of Unicode scalar values, so lone surrogates cannot be represented. On well-formed strings `split(' ')` and `trim()` agree, because the space and every whitespace code point are in the Basic Multilingual Plane.
- `ChatService.Pull`: only the pulls a consumer makes before the generator is done are modelled. A pull after the generator returned or threw, which resolves to `done`, is not.
- The lazy, asynchronous pulling of the generator: a run is its finite list of fragments and its ending. `ChatService.Pull` gives the step-by-step view that the relay loop uses.
- `ChatService.LiveStream`: the upstream event list is finite. A stream that never ends is not modelled.
