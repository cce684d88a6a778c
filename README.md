# get_cli_args: the extra-vars argument sanitizer

This project models the `get_cli_args` action plugin. When a playbook runs the plugin, it
reads the playbook's own command line and rewrites the program name to its basename. It
then drops every `--extra-vars`/`-e` flag whose next token starts with `{`, together with
that token, unless the flag is itself the previous flag's payload. From the dropped
payloads it extracts the value stored under `semaphore_vars`. Finally it adds four entries to the task result: `changed` (always
false), `ansible_playbook_argv` (the cleaned vector), `ansible_playbook_cmd` (that vector
joined with single spaces) and `semaphore_vars` (the extracted value, or None).

Files:

- `json.dfy` (module `Json`) holds decoded JSON values, their truthiness, and the type of
  the decoder, which is passed in as a parameter.
- `text.dfy` (module `Text`) holds prefix tests, POSIX basename (the text after the last
  `/`), and joining and splitting on one character.
- `sanitizer.dfy` (module `Sanitizer`) holds what the scan computes, as functions.
  `Segments` cuts the vector into steps: `Payload(flag, json)` (dropped), `FlagValue(flag,
  value)` (kept) and `Plain(arg)` (kept). `Clean` is the tokens the steps keep. `Captured`
  folds the decoder's results over the dropped payloads. The lemmas here state the scan's
  properties.
- `get_cli_args.dfy` (module `GetCliArgs`) holds the plugin in the source's own shape. The
  argument vector is an `array<string>`. `NormalizeProgramName` rewrites element 0 in place.
  `ScanArgv` is the `skip_next` loop, proved against `Clean` and `Captured`. `BuildResult`
  adds the four entries to the host's result map. `Run` chains the three steps.

Three points about what the code does:

- The value under `semaphore_vars` may be any JSON value. It is reported only when truthy:
  null, false, zero, `""`, `[]` and `{}` all report None.
- Any number of `--extra-vars`/`-e` JSON payloads are handled. Each goes to the decoder in
  turn, and the last one that decodes and holds the key wins (`FoldIsLastCapture`).
- The basename step runs before the scan. A program path whose last component is `-e` (or
  `--extra-vars`) therefore becomes a flag that consumes the next token
  (`ExampleProgramNameIsScanned`).

The decoder is a parameter `decode: string -> Option<map<string, Value>>`. `None` stands for
a decoding error. It is only applied to tokens that start with `{`, and a successful decode
of such text is always an object. The cleaned vector does not depend on the decoder at all:
`Clean` takes no decoder, so a JSON payload is dropped whether or not it decodes.

## Model

| member | source | states |
|---|---|---|
| `Json.Truthy` | ansible/action_plugins/get_cli_args/get_cli_args.py:58 | the `if semaphore_data` test: null, false, zero, the empty string, the empty list and the empty object are false, everything else true |
| `Text.Join` | ansible/action_plugins/get_cli_args/get_cli_args.py:57 | the parts with one separator between neighbours; empty for no parts, and it starts with the first part |
| `Sanitizer.Segments` | ansible/action_plugins/get_cli_args/get_cli_args.py:21-52 | the scan's steps: a flag with a following token takes that token as its payload (dropped when it starts with `{`, kept otherwise); every other token stands alone |
| `Sanitizer.Clean` | ansible/action_plugins/get_cli_args/get_cli_args.py:18-52 | the cleaned vector: the tokens of every step except the flag-and-`{`-payload pairs, in order |
| `Sanitizer.Absorb` | ansible/action_plugins/get_cli_args/get_cli_args.py:33-37 | one payload's effect on the captured value: replaced by the value under `semaphore_vars` when the decode succeeds and holds the key, unchanged on a decode error or a missing key |
| `Sanitizer.Captured` | ansible/action_plugins/get_cli_args/get_cli_args.py:17-38 | the captured value: starting from `{}`, the payloads' effects applied in scan order |
| `GetCliArgs.Sanitize` | ansible/action_plugins/get_cli_args/get_cli_args.py:8-60 | the whole plugin as a function: normalize the program name, clean and capture over the normalized vector, and add the four entries to the host's result |
| `Text.LastIndexOf` | ansible/action_plugins/get_cli_args/get_cli_args.py:14 | the index of the last occurrence, or -1: in range, holding the character, and no later occurrence |
| `Text.Basename` | ansible/action_plugins/get_cli_args/get_cli_args.py:14 | the result is a suffix of the path with no `/`; it is the whole path when there is no `/`, and otherwise starts right after a `/` |
| `Text.BasenameIdempotent` | ansible/action_plugins/get_cli_args/get_cli_args.py:14 | taking the basename twice is the same as once |
| `GetCliArgs.NormalizedArgv` | ansible/action_plugins/get_cli_args/get_cli_args.py:13-14 | the length is kept; element 0 becomes its basename, which has no `/` (and is itself when it had none); every other element is unchanged |
| `GetCliArgs.NormalizedArgvIdempotent` | ansible/action_plugins/get_cli_args/get_cli_args.py:13-14 | normalizing twice is the same as once |
| `GetCliArgs.NormalizeProgramName` | ansible/action_plugins/get_cli_args/get_cli_args.py:13-14 | the array afterwards is the normalized vector of the array before: only element 0 can change |
| `GetCliArgs.ScanArgv` | ansible/action_plugins/get_cli_args/get_cli_args.py:17-52 | the loop with `skipNext` returns exactly `Clean` of the vector and the value `Captured` folds from its payloads |
| `Sanitizer.SegmentsWellFormed` | ansible/action_plugins/get_cli_args/get_cli_args.py:21-52 | the steps of the scan cover the vector exactly and in order; a flag step always has a flag, a payload step a token starting with `{`, a kept pair a token that does not; a lone flag only ends the vector |
| `Sanitizer.SegmentationUnique` | ansible/action_plugins/get_cli_args/get_cli_args.py:21-52 | any sequence of steps that obeys those rules and covers the vector is the scan's |
| `Sanitizer.CleanBySegmentation` | ansible/action_plugins/get_cli_args/get_cli_args.py:21-52 | the cleaned vector and the payloads are those of any rule-abiding segmentation of the vector |
| `Sanitizer.CleanIsSubsequence` | ansible/action_plugins/get_cli_args/get_cli_args.py:18-52 | the cleaned vector is an order-preserving subsequence of the input, no longer than it, and every kept token occurs in the input |
| `Sanitizer.CleanWithoutFlags` | ansible/action_plugins/get_cli_args/get_cli_args.py:27-52 | with no `--extra-vars`/`-e` token the cleaned vector is the input and no payload reaches the decoder |
| `Sanitizer.CleanConcat` | ansible/action_plugins/get_cli_args/get_cli_args.py:19-52 | at a step boundary the cleaned vector and the payload list of a concatenation are those of the parts, concatenated |
| `Sanitizer.ScanConcat` | ansible/action_plugins/get_cli_args/get_cli_args.py:19-52 | when a prefix ends on a step boundary (no lone flag), scanning prefix plus rest is scanning each part |
| `Sanitizer.DropJsonPair` | ansible/action_plugins/get_cli_args/get_cli_args.py:27-39 | after a boundary, a flag followed by a `{` token is removed together with that token, which becomes the next payload decoded |
| `Sanitizer.KeepOtherPair` | ansible/action_plugins/get_cli_args/get_cli_args.py:40-44 | after a boundary, a flag followed by any other token is kept and immediately followed by that token, which is neither scanned as a flag nor decoded |
| `Sanitizer.KeepPlain` | ansible/action_plugins/get_cli_args/get_cli_args.py:45-52 | after a boundary, a token that is not a flag (including `-ekey=value` and `-e@file`) is kept in place and decodes nothing |
| `Sanitizer.KeepTrailingToken` | ansible/action_plugins/get_cli_args/get_cli_args.py:27 | after a boundary, a final token with nothing after it, a flag included, is kept as an ordinary argument |
| `Sanitizer.FoldIsLastCapture` | ansible/action_plugins/get_cli_args/get_cli_args.py:33-37 | the captured value is the reserved key's value in the last payload that decodes and holds it; payloads that fail to decode or lack the key change nothing |
| `Sanitizer.CapturedIsLast` | ansible/action_plugins/get_cli_args/get_cli_args.py:17-38 | the value captured over the whole vector is that last value, or the initial empty object |
| `Sanitizer.ExampleCapturedPayload` | ansible/action_plugins/get_cli_args/get_cli_args.py:27-38 | `ansible-playbook --extra-vars {"semaphore_vars": {"a": 1}}` cleans to `ansible-playbook` and captures `{"a": 1}` |
| `Sanitizer.ExampleFilePayload` | ansible/action_plugins/get_cli_args/get_cli_args.py:40-44 | `play -e @vars.yml` is kept unchanged and nothing is captured |
| `Sanitizer.ExampleInlinePair` | ansible/action_plugins/get_cli_args/get_cli_args.py:46-47 | `play -ekey=value` is kept unchanged and nothing is captured |
| `Sanitizer.ExampleUndecodablePayload` | ansible/action_plugins/get_cli_args/get_cli_args.py:36-39 | a `{` payload that fails to decode is dropped with its flag and nothing is captured |
| `Sanitizer.ExamplePayloadNotRescanned` | ansible/action_plugins/get_cli_args/get_cli_args.py:22-24 | in `play -e -e {x}` the second `-e` is the first one's payload, so `{x}` is an ordinary argument and is not decoded |
| `Sanitizer.ExampleLaterPayloadWithoutKey` | ansible/action_plugins/get_cli_args/get_cli_args.py:34-35 | a later payload without the reserved key leaves the value captured from an earlier one |
| `GetCliArgs.BuildResult` | ansible/action_plugins/get_cli_args/get_cli_args.py:54-59 | the host's entries are kept except the four keys; `changed` is false, the vector and its space-joined command are stored, and the captured value is stored when truthy and None otherwise |
| `GetCliArgs.Run` | ansible/action_plugins/get_cli_args/get_cli_args.py:8-60 | the argument array ends up normalized, and the result is the whole plugin's function of the original vector, the decoder and the host's result |
| `Text.SplitJoin` | ansible/action_plugins/get_cli_args/get_cli_args.py:57 | splitting a joined, non-empty list of space-free parts on the separator gives the parts back |
| `GetCliArgs.CommandSplitsBack` | ansible/action_plugins/get_cli_args/get_cli_args.py:55-57 | when no argument holds a space and something is kept, the command string splits back into the cleaned vector |
| `GetCliArgs.NoFlagsNoChange` | ansible/action_plugins/get_cli_args/get_cli_args.py:18-58 | with no flag in the normalized vector, the reported vector is the normalized input and the reported variables are None |
| `GetCliArgs.ReportedVariables` | ansible/action_plugins/get_cli_args/get_cli_args.py:58 | the reported variables are the last captured value when it exists and is truthy, and None in every other case |
| `GetCliArgs.ExamplePathAndPayload` | ansible/action_plugins/get_cli_args/get_cli_args.py:13-37 | `/usr/bin/ansible-playbook --extra-vars {"semaphore_vars": {"a": 1}}` cleans to `ansible-playbook`, with command `ansible-playbook` and captured value `{"a": 1}` |
| `GetCliArgs.ExampleProgramNameIsScanned` | ansible/action_plugins/get_cli_args/get_cli_args.py:13-30 | `/opt/-e {}` is kept whole by the scan alone, but after the basename step the program name `-e` drops itself and `{}` |

## Left out

- The host framework: `ActionBase` and the result of `super().run` are an opaque map of `HostData` entries that the plugin extends.
- Reading the live process argument vector: the vector is an array passed to `Run`. The in-place rewrite of element 0 is kept.
- The JSON decoder itself is a parameter with no internals. Only `JSONDecodeError` is caught (get_cli_args.py:36); any other exception the decoder raises escapes the plugin, such as `RecursionError` on a deeply nested payload or, from Python 3.11, the plain `ValueError` for an integer literal over the digit limit. The decoder's type cannot express such an exception, so the model has no path for it.
- Python's non-standard `NaN` and `Infinity` number literals are not values of `Json.Value`. Numbers are integers or reals.
- Path rules other than the POSIX "text after the last `/`" rule are out.
- `ScanArgv` nests the `-ekey=value`, `-e@file` and ordinary-argument branches under one `else`. The source writes them as a flat `elif` chain. Every branch appends the token, and the conditions are tested in the same order.
