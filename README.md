# test_models: model-id resolution and the tool round-trip

`scripts/test_models.py` is a command-line smoke-test client for an
OpenAI-compatible chat completion service (a vLLM server). Almost all of it is
HTTP calls and printing. This project models the two parts that make
decisions:

- **Model-id resolution** (`TestModels.ResolveModelId`). An explicit
  `--model-id` wins. Otherwise `--alias` is looked up in the fixed two-entry
  alias table, and an unknown alias is passed through as the id. With neither,
  the `gpt-oss` entry is used. Python truthiness is kept: a `None` and an
  empty string both count as absent (`TestModels.Truthy`).
- **The tool round-trip** (`TestModels.AssembleRoundTrip`). This is the work
  `roundtrip` does between its two requests. It takes the assistant message
  `m` of the first response and its `tool_calls`, which default to `[]`. If
  there are none, it exits with code 3 and prints `no tool_calls`. Otherwise it
  walks the calls in order and builds one `tool` message for each call of type
  `function` named `get_time`. That message carries the call's id and the
  payload `{"timestamp": <int>}`. The follow-up transcript is the original
  messages, then `m`, then the tool messages. The method is a loop that
  appends to a sequence. It is proved equal to the specification function
  `TestModels.RoundTrip`, and the properties of the round-trip are lemmas
  about that function.

Module `JsonInt` models how `json.dumps` writes a Python `int` inside the
payload. It also has a decoder, which is the encoder's inverse, so the model
can state that each tool message carries its clock reading exactly
(`TestModels.PayloadRoundTrip`). Module `Wrappers` holds the `Option` type used
for `None` and for missing JSON members.

Inputs that the program gets from outside are parameters:

- The first response's assistant message is a `Message` value.
- The clock is a sequence `clock`, where `clock[i]` is the value of
  `int(time.time())` when the loop reaches call `i`. The source reads the
  clock only for `get_time` calls, so the model ignores the readings for
  every other call.
- In the source, the original messages `msgs` are the single user message
  built from `--prompt` (line 77). The model accepts any sequence.

## Model

| member | source | states |
|---|---|---|
| `TestModels.ResolveModelId` | scripts/test_models.py:29-32 | an explicit non-empty id is returned whatever the alias; with no id, a known alias gives its table entry, an unknown alias is returned verbatim, and no alias (None or "") gives `openai/gpt-oss-20b`; the result is never empty |
| `TestModels.ResolveExamples` | scripts/test_models.py:11-14 | the documented cases: default, `llama8b` gives `meta-llama/Meta-Llama-3.1-8B-Instruct`, `unknown-alias` passes through, an explicit id beats `llama8b`, empty strings behave like None |
| `TestModels.ResolvedIdIsFixedPoint` | scripts/test_models.py:30 | passing a resolved id back as `--model-id` selects the same model whatever alias is given |
| `TestModels.ResolvedIdOrigin` | scripts/test_models.py:31-32 | the resolved id is the explicit id, the alias itself, or one of the alias table's values |
| `TestModels.ToolCallsLookup` | scripts/test_models.py:73 | `m.get("tool_calls", [])`, which the tool probe prints (and the round-trip reads at line 84), gives `[]` exactly when the member is missing or an empty list, `None` (printed `null`) exactly when it is JSON null, and the listed calls when present |
| `TestModels.TimestampPayload` | scripts/test_models.py:94 | the tool message content is `{"timestamp": ` followed by the integer and a closing brace |
| `TestModels.PayloadRoundTrip` | scripts/test_models.py:94 | reading the payload back gives exactly the clock reading it was built from |
| `TestModels.GetTimeIndices` | scripts/test_models.py:88-89 | the positions of the calls with type `function` and name `get_time`, ascending, each one a matching call, every matching call included, at most as many as there are calls |
| `TestModels.RepliesMatchGetTimeCalls` | scripts/test_models.py:88-95 | exactly one tool message per `get_time` call and none for other calls; the k-th message answers the k-th matching call in call order |
| `TestModels.RepliesAreGetTimeAnswers` | scripts/test_models.py:90-95 | every tool message has role `tool`, name `get_time`, its call's id as `tool_call_id`, and a payload holding that call's clock reading; there are no more messages than calls |
| `TestModels.AssembleRoundTrip` | scripts/test_models.py:83-98 | the loop computes the round-trip specification: exit when there are no calls, otherwise the follow-up transcript with the filtered and mapped tool messages |
| `TestModels.ExitIffNoToolCalls` | scripts/test_models.py:84-86 | the round-trip exits, with code 3 and notice `no tool_calls` and no follow-up, exactly when `tool_calls` is missing, null or an empty list, i.e. when the looked-up value is falsy |
| `TestModels.FollowUpTranscriptLayout` | scripts/test_models.py:98 | the follow-up transcript is the original messages unchanged, then the assistant message, then the tool messages; its length is `\|msgs\| + 1 + \|tool_msgs\|` |
| `TestModels.SingleGetTimeCallExample` | scripts/test_models.py:88-98 | one `get_time` call with id `call_1` after one user message gives the user message, the assistant message and one tool message for `call_1` with the timestamp payload |
| `JsonInt.NatToDecimal` | scripts/test_models.py:94 | the decimal numeral `json.dumps` writes for a non-negative int: non-empty, digits only, a leading zero only for 0 itself |
| `JsonInt.Encode` | scripts/test_models.py:94 | `json.dumps` of an int: non-empty, starts with `-` exactly for negative numbers, otherwise digits only |
| `JsonInt.DecimalRoundTrip` | scripts/test_models.py:94 | reading the numeral of a natural number gives the number back |
| `JsonInt.RoundTrip` | scripts/test_models.py:94 | decoding the encoding of any int gives that int back |
| `JsonInt.DecodeSound` | scripts/test_models.py:94 | the decoder accepts only texts `json.dumps` writes for an int: whatever it decodes is the encoding of the decoded value |
| `JsonInt.EncodeInjective` | scripts/test_models.py:94 | distinct integers are written as distinct texts |

## Left out

- HTTP: `_h`, `_get`, `_post`, the `requests` calls, their timeouts and `raise_for_status` (lines 16-27) are network I/O over a library that is not part of this model. The two `chat/completions` requests of the round-trip are represented by their input (the assistant message) and their output (`Outcome.FollowUp`).
- `cmd_health`, `cmd_models`, `cmd_chat` and the printing in `cmd_tools_probe` and `cmd_tools_roundtrip` (lines 34-51, 73, 101): these pretty-print JSON or the trimmed reply text. The health check's exit code 2 has no logic behind it.
- `main`, the argparse wiring, `--alias` choices, and the rewrite of `BASE_URL`/`API_KEY` through `globals()` (lines 103-128): this is command-line plumbing and process-global state.
- `tools_schema` and the request payloads (model, `tool_choice`, float `temperature`, `max_tokens`; lines 53-72, 78-82, 96-100): these are constant request fields with no decisions in them.
- `time.time()`: every clock reading is an input. Truncation from float to int happens outside the model.
- Malformed responses: a missing `choices[0]` or `message` raises `KeyError` or `IndexError` in the source, which does not handle it; the model starts from the assistant message. The `and` at line 89 short-circuits, so `function.name` is read only for calls whose `type` is `function`, and `id` (line 92) only for `get_time` calls. For those calls a missing member would raise `KeyError`, and the model's types leave no room for it. A call of another type may lack `function` or `id` in the source and is skipped without error. The model gives every `ToolCall` an `id` and a `func`, and for such calls these hold arbitrary values that are never read. An absent `type` is `None`.
- The `tool_calls` member keeps apart a missing key, JSON `null` and a list (`TestModels.Member`). The probe (line 73) prints `[]` for a missing key and `null` for `null`. The two cases behave the same only at lines 85-86, where both values are falsy and the round-trip exits. A value in that member that is not a list is not modelled.
- `JsonInt.Decode` only reads the canonical form that `Encode` writes. It is the inverse used in the proofs, not a model of a JSON parser.
