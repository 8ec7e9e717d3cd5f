# SSM document filter — a Dafny model

This project models the pure core of `filter_ssm_documents.py`. The script reads a
list of SSM Automation document ARNs, fetches each document, and writes out the ARNs
whose `aws:executeScript` steps still name an outdated Python runtime. The model has
four parts:

- **ARN parsing** (`Arn`). `Match` is the anchored match of
  `arn:aws:ssm:(?P<region>[^:]+):(?P<account_id>[^:]+):document/(?P<name>.*)`.
  `ParseArn` projects that match to `(region, name)`, or to `None` where the source
  returns `(None, None)`. The model keeps two details of Python's `re`: `.` does not
  match a newline, so the name stops at the first `\n`, and `re.match` anchors only at
  the start, so text after the name is allowed.
- **The outdated-runtime test** (`Documents`). `Json` is the decoded document, with
  Python's truthiness and `dict.get`. `HasOutdatedPythonRuntime` follows
  `has_outdated_python_runtime` line by line. The model also covers one thing the
  source does not guard against: if `mainSteps` is bound to `null`, a boolean or a
  number, `for step in ...` raises `TypeError`. Nothing catches that exception, so it
  ends the whole run. The model says so with `RaisesTypeError` and, in the pass,
  `TypeErrorCrash`. A `mainSteps` that is a dict or a string iterates over strings,
  and so never flags a document.
- **The filtering pass** (`Filter`). `Dispose` is one iteration of the loop over
  ARNs. `Decisions` applies it to every ARN, and `Run` is the whole loop as a fold
  over the ARNs and their decisions. `Walk` is the loop with the source's counters,
  and `FilterDocuments` is the function as a whole: strip the lines, drop the blank
  ones, return early on empty input, then walk. Creating the client and
  fetching the document are oracles passed in as functions:
  - `init: string -> ClientInit` returns ready, failed (a `ClientError` or any other
    exception) or missing credentials.
  - `fetch: (region, name) -> Option<Json>` returns `None` for everything that makes
    `get_document_content` return `None`.
- **The runtime list** (`RuntimeList`). This covers `DEFAULT_OLD_RUNTIMES` and the
  parse of `--old-runtimes`: split on `,`, strip each piece, drop the empty pieces.
  `Text` holds Python's `strip`, `split` and `join`. The same "strip and drop blank"
  step serves both the input lines and the runtime list.

The main results:

- `ParseArn` returns `None` exactly on strings that are not well-formed SSM document
  ARNs. On well-formed ones it returns the region and the whole name, `/` characters
  included.
- The runtime test is true exactly when the content is a dict whose `mainSteps` list
  holds a dict step with action `aws:executeScript` and a string `inputs.Runtime`
  equal to a listed runtime.
- A completed pass:
  - counted every non-blank line;
  - reports `found` equal to the output's length;
  - outputs an order-preserving subsequence of the input that holds every occurrence
    of each selected ARN and nothing else, so duplicates are kept.
- The first fatal ARN decides a failed pass: missing credentials abort it, and a
  non-iterable `mainSteps` crashes it. A skipped ARN changes only the `processed`
  counter.

## Model

| member | source | states |
|---|---|---|
| `Text.IsSpace` | filter_ssm_documents.py:96 | definition: the characters Python's `str.isspace()` accepts and `strip()` removes |
| `Text.DropLeading` | filter_ssm_documents.py:96 | the result is the suffix of the input that starts at its first non-whitespace character; everything before it is whitespace |
| `Text.DropTrailing` | filter_ssm_documents.py:96 | the result is the prefix of the input that ends at its last non-whitespace character; everything after it is whitespace |
| `Text.Strip` | filter_ssm_documents.py:96 | `strip()` yields a string with no whitespace at either end, and yields the empty string exactly when the input is all whitespace |
| `Text.StripInfix` | filter_ssm_documents.py:96 | what `strip()` keeps is a contiguous piece of the input between two all-whitespace margins |
| `Text.StripPadded` | filter_ssm_documents.py:96 | stripping whitespace + s + whitespace, where s has no whitespace at its ends, gives back exactly s |
| `Text.StripIdempotent` | filter_ssm_documents.py:96 | `strip()` applied twice equals `strip()` applied once |
| `Text.StripKeepsOut` | filter_ssm_documents.py:183 | a character absent from a string is absent from its `strip()` |
| `Text.Join` | filter_ssm_documents.py:170 | definition: `sep.join(pieces)`; `Split` and `SplitJoin` make it the inverse of `split` |
| `Text.Split` | filter_ssm_documents.py:183 | `split(',')` yields at least one piece, no piece contains the separator, and joining the pieces with the separator gives the input back |
| `Text.SplitJoin` | filter_ssm_documents.py:183 | splitting the join of separator-free pieces gives those pieces back (the inverse direction of the round trip) |
| `Text.StripNonBlank` | filter_ssm_documents.py:96 | the comprehension keeps only non-empty, stripped strings |
| `Text.StripNonBlankSubseq` | filter_ssm_documents.py:96 | the kept strings are the stripped inputs in their original order, and each non-empty stripped input is kept exactly as often as it occurs: only the blank ones are removed |
| `Text.StripNonBlankCounts` | filter_ssm_documents.py:96 | each non-empty stripped piece occurs in the result exactly as often as among the stripped pieces, and the empty string never does |
| `Text.StripAllAt` | filter_ssm_documents.py:96 | the i-th stripped piece is the i-th piece, stripped |
| `Text.StripNonBlankKeepsOut` | filter_ssm_documents.py:183 | a character that no piece contains is in no kept piece either |
| `Text.StripNonBlankClean` | filter_ssm_documents.py:96 | input that is already non-blank and stripped passes through unchanged |
| `Text.StripNonBlankAppend` | filter_ssm_documents.py:96 | the comprehension over xs + ys is its result on xs followed by its result on ys |
| `Text.StripNonBlankDropsBlank` | filter_ssm_documents.py:96 | a whitespace-only line contributes nothing |
| `Arn.DropPrefix` | filter_ssm_documents.py:33 | a literal part of the pattern is consumed exactly when the input starts with it |
| `Arn.CutAt` | filter_ssm_documents.py:33 | a `[^:]+` group followed by `:` reads up to the first colon: the part before it holds no colon and the parts rebuild the input |
| `Arn.TakeLine` | filter_ssm_documents.py:33 | the `.*` group takes the longest prefix without a newline |
| `Arn.Match` | filter_ssm_documents.py:33 | a successful match has non-empty colon-free region and account, a newline-free name, a remainder that is empty or starts with a newline, and the groups rebuild the input |
| `Arn.MatchComplete` | filter_ssm_documents.py:33 | every well-formed decomposition of a string is found by the match, so the match is the unique decomposition |
| `Arn.ParseArn` | filter_ssm_documents.py:35-40 | on success the region is non-empty and colon-free and the name holds no newline |
| `Arn.ParseSsmArn` | filter_ssm_documents.py:33-39 | `arn:aws:ssm:R:A:document/N` with R and A non-empty and colon-free parses to (R, N), with N including any further `/` characters |
| `Arn.ParseArnFailsExactly` | filter_ssm_documents.py:37-40 | parsing returns `None` if and only if no well-formed decomposition renders to the input |
| `Arn.OtherResourceRejected` | filter_ssm_documents.py:33-40 | an SSM ARN whose resource part does not start with `document/` does not parse |
| `Arn.LambdaArnRejected` | filter_ssm_documents.py:37-40 | a Lambda function ARN does not parse |
| `Arn.EmptyNameParses` | filter_ssm_documents.py:33-39 | an ARN that ends right after `document/` parses with an empty name, which the loop then skips |
| `Documents.Truthy` | filter_ssm_documents.py:67 | definition: Python truthiness of a decoded value (`None`, `False`, zero, empty string, list or dict are false) |
| `Documents.Get` | filter_ssm_documents.py:70-74 | `dict.get` returns nothing exactly when the key is unbound, and otherwise returns the value of the last binding of that key |
| `Documents.Items` | filter_ssm_documents.py:70 | iteration fails exactly for null, booleans and numbers; a list yields its elements; a dict or string yields only strings |
| `Documents.AnyOutdatedStep` | filter_ssm_documents.py:70-78 | the early-returning scan answers true if and only if some step is an outdated step |
| `Documents.IsOutdatedStep` | filter_ssm_documents.py:71-75 | definition: a dict step whose `action` is `aws:executeScript` and whose `inputs` (an empty dict when absent) is a dict with a string `Runtime` in the list; `RuntimeMatchIsExact` pins it down |
| `Documents.UsesOutdatedRuntime` | filter_ssm_documents.py:65-78 | definition: the declarative reading of the runtime test, related to it by `HasOutdatedPythonRuntime` and `FlaggedIff` |
| `Documents.HasOutdatedPythonRuntime` | filter_ssm_documents.py:65-78 | false for falsy or non-dict content and without `mainSteps`; raises exactly when `mainSteps` is null/bool/number; otherwise true if and only if `mainSteps` is a list with a dict step whose action is `aws:executeScript` and whose dict `inputs` has a string `Runtime` equal to a listed runtime |
| `Documents.FlaggedIff` | filter_ssm_documents.py:65-78 | the runtime test answers true if and only if the content is a dict whose `mainSteps` list holds an outdated step |
| `Documents.OnlyMembershipMatters` | filter_ssm_documents.py:75 | two runtime lists with the same members give the same verdict on every document |
| `Documents.MoreRuntimesFlagMore` | filter_ssm_documents.py:75 | a document flagged under one list is flagged under any list that contains it |
| `Documents.ScriptStepReads` | filter_ssm_documents.py:71-74 | the `action`, `inputs` and `Runtime` lookups on a one-step document return the values it was built with |
| `Documents.RuntimeMatchIsExact` | filter_ssm_documents.py:71-75 | an `aws:executeScript` step is outdated if and only if its runtime is in the list by exact equality; a step with any other action never is |
| `Filter.Addressable` | filter_ssm_documents.py:120-124 | definition: the ARN parses and both its region and its name are non-empty |
| `Filter.Selected` | filter_ssm_documents.py:120-147 | definition: the ARN is addressable, its region's client is ready, content was fetched, and that content uses an outdated runtime |
| `Filter.Dispose` | filter_ssm_documents.py:120-147 | an ARN is kept if and only if it is selected (it parses, its region and name are non-empty, the client is ready, content was fetched and uses an outdated runtime); it aborts if and only if it is addressable and its region lacks credentials; it crashes if and only if it is addressable, the client is ready, content was fetched and that content's `mainSteps` is not iterable; in every other case (parse failure, empty region or name, failed client, failed fetch, falsy content, no outdated step) it is skipped |
| `Filter.Decisions` | filter_ssm_documents.py:117-147 | one decision per ARN: the i-th ARN is kept exactly when it is selected, aborts the pass exactly when it is addressable and its region lacks credentials, crashes it exactly when the fetched content's `mainSteps` is not iterable, and is skipped otherwise |
| `Filter.Run` | filter_ssm_documents.py:117-147 | given one decision per ARN, a completed pass counted every ARN, and `found` equals the output length and is at most the input length |
| `Filter.RunCompletesIff` | filter_ssm_documents.py:117-147 | the pass completes if and only if no ARN's decision is to abort or crash |
| `Filter.RunSubseq` | filter_ssm_documents.py:117-147 | whatever the decisions, a completed pass outputs an order-preserving subsequence of its input |
| `Filter.RunOutputsKept` | filter_ssm_documents.py:117-147 | when the decision depends on the ARN alone, a completed pass outputs a subsequence of its input that contains each kept ARN as often as the input does and nothing else |
| `Filter.RunConcat` | filter_ssm_documents.py:117-147 | the pass over xs + ys is the pass over xs followed by the pass over ys |
| `Filter.SkipAffectsOnlyCount` | filter_ssm_documents.py:117-143 | inserting a skipped ARN anywhere gives the outcome without it with one more ARN counted (`Bump`): a completed pass keeps its output and `found`, and a failed one is unchanged |
| `Filter.FirstFatalDecides` | filter_ssm_documents.py:130-144 | the first fatal ARN decides the result: missing credentials give the abort (lines 130-132), a non-iterable `mainSteps` gives the crash (the TypeError of the loop at line 70, reached through the call at line 144), whatever follows |
| `Filter.FirstFatalAfter` | filter_ssm_documents.py:130-132 | a fatal ARN after a prefix that completed decides the result of the pass |
| `Filter.Walk` | filter_ssm_documents.py:111-147 | the loop with its counters and early return computes the same outcome as the fold |
| `Filter.PassKeepsSelected` | filter_ssm_documents.py:143-147 | with the source's per-ARN decision, a completed pass outputs a subsequence of its input that keeps each selected ARN as often as it occurs and no other ARN |
| `Filter.FilterDocuments` | filter_ssm_documents.py:94-147 | empty input (after dropping blank lines) completes with no output; a completed run counted every non-blank line, reports `found` equal to the output length, and outputs the order-preserving subsequence of the stripped lines that holds every occurrence of each selected ARN and nothing else |
| `RuntimeList.ParseOldRuntimes` | filter_ssm_documents.py:183 | every parsed runtime name is non-empty, stripped and comma-free |
| `RuntimeList.ParseFields` | filter_ssm_documents.py:183 | the parse of comma-joined fields is exactly those fields, stripped, with the blank ones dropped, in order |
| `RuntimeList.ParseJoinRoundTrip` | filter_ssm_documents.py:183 | joining clean runtime names with commas and parsing gives back the same list |
| `RuntimeList.DefaultOldRuntimes` | filter_ssm_documents.py:16 | definition: the five runtimes flagged when `--old-runtimes` is not given, in the source's order |
| `RuntimeList.DefaultArgumentParsesToDefault` | filter_ssm_documents.py:170 | the default argument `",".join(DEFAULT_OLD_RUNTIMES)` parses back to `DEFAULT_OLD_RUNTIMES` |
| `RuntimeList.DefaultListMatchesExactly` | filter_ssm_documents.py:16 | with the default list, `python3.9` is outdated while `python3.9.18` and `python3.10` are not |

## Left out

- File input and output are not modelled. The input file arrives as a sequence of
  lines. Reading it with universal newlines, a missing input file, and `IOError` on
  writing are I/O.
- The `BOTO3_AVAILABLE` check, `argparse`, `setup_logging`, every log message and the
  `sys.exit` codes are not modelled. They are environment and plumbing.
- Creating the boto3 client and calling `get_document` are foreign library calls.
  They are the `init` and `fetch` oracles. `get_document_content` (lines 43-63) folds
  an `InvalidDocument` or other `ClientError`, empty `Content`, a `JSONDecodeError`
  and any other exception into `None`. That is `fetch` returning `None`.
- `fetch` is a pure function of (region, name), and `init` a pure function of the
  region. The source calls `get_document` again for every occurrence of a duplicated
  ARN (line 141), and it calls `boto3.client` again for a region whose earlier
  initialisation failed (lines 127-138). Either repeated call could answer
  differently. The model gives every occurrence the same answer. The "kept as often as
  it occurs" results of `PassKeepsSelected` and `FilterDocuments` rest on this.
- `json.loads` is not modelled; documents arrive already decoded. JSON numbers are
  Dafny reals, so float precision and infinities are not modelled. A dict is its list
  of bindings, and a repeated key reads as its last binding.
- The per-region client cache (`ssm_clients`) is not modelled. `init` is a pure
  function of the region, so asking it again for the same region changes nothing. The
  source does not cache failed initialisations either.
- The `processed` counter of a pass that aborts or crashes is not reported. The
  source never reports it either.
- The shell scripts of the repository (discovery, upgrade, login banner) are not part
  of this model. That includes the Lambda ARN helpers.
