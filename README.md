# gpr command-line tool: core behaviour in Dafny

`gpr` is a .NET global tool for GitHub Packages. This project models only the parts of
`src/GprTool/Program.cs` that decide something by themselves:

- **Token encoders** of the `encode` command: `XmlEncode` writes every UTF-16 code unit as a
  decimal XML character reference `&#N;`. `UnicodeEncode` writes every code unit as a JSON
  escape `\uXXXX` with four lower-case hex digits. Each one is paired with a decoder, and the
  round trip is proved.
- **Access-token precedence** (`GetAccessToken`, `FindReadPackagesToken`):
  1. `--api-key`;
  2. the token in the NuGet configuration;
  3. `READ_PACKAGES_TOKEN`, unless it is empty;
  4. otherwise the "Couldn't find personal access token" error.

  The winner is trimmed with .NET's `string.Trim()`, which is modelled over .NET's
  white-space set.
- **Upload resilience policy** of `push` (`BuildRetryAsyncPolicy` and its use):
  - a no-op policy when the retry budget is 0 or less;
  - otherwise a retry-on-result policy with a fixed delay around a per-attempt timeout;
  - a response is retried unless its status is 200, 400, 401 or 409;
  - `--retries` defaults to 3, so by default the policy is `RetryWithTimeout(3, 10, 300)`.
- **Upload outcome** of `push`: every attempt overwrites the package file's `IsUploaded` flag
  with "the status was 200". The command exits 0 exactly when every file ends up uploaded.
- **`delete`**:
  - which versions `--docker-clean-up` deletes: the single version of each package whose only
    version is `docker-base-layer`;
  - which versions `--force` deletes: all of them;
  - the exit code, as written. It compares the number of deleted *versions* with the number
    of *packages*. A forced delete of one package with two versions therefore exits 1, and a
    listing-only run exits 1 unless the listing is empty.
- **`files`**: the storage tally. The non-null 32-bit sizes are summed into a 64-bit total,
  which is reported as `total / (1024 * 1024)` with C#'s truncating division.

C# strings are sequences of UTF-16 code units (`Utf16.CodeUnit`, 0..0xFFFF), since Dafny's
`char` cannot hold lone surrogates. GraphQL listings, HTTP responses and the environment are
parameters:

- a transport is a function from attempt number to status code;
- a file whose own pipeline throws before its first attempt has no transport (`None`). The
  pipeline is the nupkg rewrite or the manifest read;
- each delete mutation's answer is a function from version id to success.

`Push.ConflictScenario` and `Push.RecoveryScenario` are worked examples that the verifier
checks:
- three files: one answered 200, one answered 409, and one that fails before its upload;
- one file that succeeds after two server errors.

Modules follow the program's structure:

| module | contents |
|---|---|
| `Wrappers` | `Option`, `Result` |
| `Utf16` | code units, `Trim` |
| `Encode` | the `encode` command's formats |
| `Retry` | the policy |
| `Push` | `PackageFile` and the upload loop |
| `AccessToken` | token lookup |
| `Delete` | the `delete` command |
| `Storage` | the `files` command |

## Model

| member | source | states |
|---|---|---|
| Utf16.Trim | src/GprTool/Program.cs:765-778 | The result has no white space at either end. It is the infix of the input that starts after the leading white space. Everything before and after it is white space. |
| Utf16.TrimCharacterization | src/GprTool/Program.cs:765-778 | Trimming white space + trimmed core + white space gives exactly the core, so `Trim` is determined by its contract. |
| Utf16.TrimIdempotent | src/GprTool/Program.cs:775-777 | Trimming twice is trimming once. This is why the doubly trimmed READ_PACKAGES_TOKEN equals a single trim. |
| Encode.DecimalDigits | src/GprTool/Program.cs:692 | `(int)ch` in decimal: at least one digit, all digits, and a leading zero only for 0. |
| Encode.DecimalRoundTrip | src/GprTool/Program.cs:692 | Parsing the decimal digits of n gives back n. |
| Encode.DecimalLength | src/GprTool/Program.cs:692 | A number below 10^k has at most k digits, so a code unit has 1 to 5 digits. |
| Encode.XmlEncode | src/GprTool/Program.cs:690-693 | One `&#N;` reference per code unit, so 4 to 8 characters per code unit. Its meaning is fixed by `XmlRoundTrip` against the independent decoder `XmlDecode`. |
| Encode.XmlDecodeCharRef | src/GprTool/Program.cs:692 | A single `&#N;` reference followed by more text decodes to code unit N followed by the rest. |
| Encode.XmlRoundTrip | src/GprTool/Program.cs:690-693 | Decoding `XmlEncode(s)` as character references gives back s. |
| Encode.XmlEncodeInjective | src/GprTool/Program.cs:690-693 | Different tokens have different XML encodings. |
| Encode.XmlEncodeAppend | src/GprTool/Program.cs:690-693 | The encoding of a concatenation is the concatenation of the encodings (one reference per code unit, independently). |
| Encode.XmlEncodeAlphabet | src/GprTool/Program.cs:690-693 | The output uses only `&`, `#`, `;` and decimal digits. |
| Encode.Hex4 | src/GprTool/Program.cs:697 | `ToString("x4")` of a code unit is exactly four lower-case hex digits. |
| Encode.Hex4RoundTrip | src/GprTool/Program.cs:697 | Reading the four hex digits back gives the code unit. |
| Encode.UnicodeEncode | src/GprTool/Program.cs:695-698 | Exactly 6 characters per code unit. Its meaning is fixed by `UnicodeEncodeBlock` and by `UnicodeRoundTrip` against the decoder `UnicodeDecode`. |
| Encode.UnicodeEncodeBlock | src/GprTool/Program.cs:695-698 | Characters 6i..6i+6 of the output are `\u` followed by the hex digits of code unit i. |
| Encode.UnicodeRoundTrip | src/GprTool/Program.cs:695-698 | Decoding the `\uXXXX` escapes of `UnicodeEncode(s)` gives back s. |
| Encode.UnicodeEncodeInjective | src/GprTool/Program.cs:695-698 | Different tokens have different JSON escapes. |
| Retry.IsRetryable | src/GprTool/Program.cs:372-375 | The `HandleResult` predicate: retry unless the status is 401, 409, 400 or 200. `Retry.Classify` gives its meaning as the three-way outcome the upload loop reads. |
| Retry.Classify | src/GprTool/Program.cs:372-375 | 200 is success; 400, 401 and 409 are final failures; any other status is retried, exactly when the `HandleResult` predicate holds. |
| Retry.BuildRetryPolicy | src/GprTool/Program.cs:363-381 | A no-op policy iff the retry number is at most 0. Otherwise it has exactly the given retry count, delay and timeout. |
| Retry.Budget | src/GprTool/Program.cs:445 | `Math.Max(0, Retries)`: zero iff `--retries` is at most 0, and otherwise the option's value. |
| Retry.PushPolicy | src/GprTool/Program.cs:445 | The push command's policy: no-op iff `--retries` is at most 0, otherwise that many retries with a 10 s delay and a 300 s timeout. |
| Retry.AttemptCount | src/GprTool/Program.cs:370-376 | A run makes at least one attempt and at most retries + 1. |
| Retry.AttemptCountIsRun | src/GprTool/Program.cs:370-376 | The attempt count is a run of the policy: every earlier attempt was retryable, and the last one was not retryable or used up the budget. |
| Retry.AttemptRunUnique | src/GprTool/Program.cs:370-376 | There is only one such run length, so the count is determined by the transport. |
| Retry.NoBudgetSingleAttempt | src/GprTool/Program.cs:365-368 | `--retries` at most 0 gives the no-op policy: one attempt and no timeout. |
| Retry.PositiveBudgetPolicy | src/GprTool/Program.cs:370-380 | `--retries` R > 0 gives R retries, a 10 s delay and a 300 s timeout per attempt. |
| Retry.TerminalFirstAttempt | src/GprTool/Program.cs:372-376 | A first answer of 200, 400, 401 or 409 ends the run after one attempt, whatever the budget. |
| Retry.AlwaysRetryableUsesBudget | src/GprTool/Program.cs:376 | If every answer is retryable, exactly R + 1 attempts are made. |
| Retry.SucceedsAfterFailures | src/GprTool/Program.cs:372-376 | f transient failures and then 200, with f within the budget, gives exactly f + 1 attempts. |
| Retry.WorstCaseDuration | src/GprTool/Program.cs:376-380 | n attempts and n − 1 delays: n × timeout + (n − 1) × delay ≤ (R + 1) × (timeout + delay). This follows arithmetically from `AttemptCount` ≤ R + 1, and bounds the time spent only if each attempt lasts at most the timeout. |
| Push.PackageFile.constructor | src/GprTool/Program.cs:396-399 | A new package file keeps its name and is not uploaded. |
| Push.UploadAttempt | src/GprTool/Program.cs:511-513 | One attempt sets `IsUploaded` to "status is 200" and hands the response back to the policy. |
| Push.UploadPackage | src/GprTool/Program.cs:485-486 | The loop makes exactly `AttemptCount` attempts and sleeps the delay attempts - 1 times. The flag ends as "the last status was 200". |
| Push.UploadAll | src/GprTool/Program.cs:447-476 | Each file's flag ends as the outcome of its own run under the shared policy. A file whose pipeline throws before the upload is skipped, with its flag unchanged, and the other files carry on. |
| Push.PushPackages | src/GprTool/Program.cs:440-538 | The exit code is 0 iff there are files, a token is found and every file is uploaded. Without files or a token nothing is uploaded. Otherwise each flag is the outcome of its run under `PushPolicy(--retries)`, or unchanged for a file that failed before its upload. With freshly built files, such a failure makes the command exit 1. |
| AccessToken.GetAccessToken | src/GprTool/Program.cs:763-781 | The lookup fails iff there is no `--api-key`, no configuration token and no non-empty READ_PACKAGES_TOKEN. A returned token has no white space at either end. `TokenIsTrimmedWinner` pins the value. |
| AccessToken.FindReadPackagesToken | src/GprTool/Program.cs:783-784 | Absent iff READ_PACKAGES_TOKEN is unset or empty. When present it is trimmed. |
| AccessToken.TokenIsTrimmedWinner | src/GprTool/Program.cs:763-781 | An error iff no source wins. Otherwise the token is the winning source trimmed. |
| AccessToken.TokenIsTrimmed | src/GprTool/Program.cs:763-778 | A returned token has no surrounding white space. It is empty iff its source was all white space. |
| AccessToken.ApiKeyWins | src/GprTool/Program.cs:765-768 | `--api-key` wins over the configuration and the environment. |
| AccessToken.WhiteSpaceEnvGivesEmptyToken | src/GprTool/Program.cs:775-784 | A READ_PACKAGES_TOKEN made only of white space yields the empty token, not the error. |
| AccessToken.EmptyEnvIsMissing | src/GprTool/Program.cs:780-784 | An empty READ_PACKAGES_TOKEN counts as missing. |
| Delete.DockerCleanUpIds | src/GprTool/Program.cs:193-207 | The docker clean-up makes at most as many requests as there are packages. `DockerCleanUpCount` gives the exact number, and `DockerCleanUpSelection` gives both directions of which ids. |
| Delete.DockerCleanUpCount | src/GprTool/Program.cs:193-207 | Exactly one request per orphaned `docker-base-layer` package: the number of requests is the number of positions holding such a package. |
| Delete.DeleteOutcome | src/GprTool/Program.cs:188-239 | The exit code is 0 or 1. The docker clean-up always exits 0 and counts at most its requests. The listing loop counts every request it sent. `ForcedExitCode` and `ListingOnlyExitCode` give the exit code. |
| Delete.CountSucceeded | src/GprTool/Program.cs:200-205 | The confirmed deletions are never more than the requests. |
| Delete.DeleteCommand | src/GprTool/Program.cs:157-239 | A missing token, path or listing gives exit 1 and no requests. Otherwise exit code, requests and count are those of `DeleteOutcome`. |
| Delete.DockerCleanUp | src/GprTool/Program.cs:191-211 | The loop requests exactly the orphaned base layers, in order, and counts the confirmed ones. |
| Delete.DeleteAll | src/GprTool/Program.cs:213-231 | With `--force`, every version of every package is requested, in listing order. Without it, none is. |
| Delete.DeleteVersions | src/GprTool/Program.cs:216-230 | With `--force`, every version of one package is requested, in order. Without it, none is. |
| Delete.DockerCleanUpSelection | src/GprTool/Program.cs:195 | Both directions: an id is requested iff it is the single version of an orphaned `docker-base-layer` package. |
| Delete.AllVersionIdsCount | src/GprTool/Program.cs:216-225 | A forced delete requests exactly the total number of versions. |
| Delete.ListingOnlyExitCode | src/GprTool/Program.cs:226-239 | Without `--force` nothing is deleted, and the exit code is 0 iff the listing is empty. |
| Delete.ForcedExitCode | src/GprTool/Program.cs:218-239 | With `--force` the exit code is 0 iff the total number of versions equals the number of packages. |
| Delete.ForcedSingleVersionsExitZero | src/GprTool/Program.cs:239 | A forced delete where every package has one version exits 0. |
| Delete.ForcedTwoVersionsExitOne | src/GprTool/Program.cs:213-239 | A forced delete of one package with two versions requests both and exits 1. |
| Storage.TruncDiv | src/GprTool/Program.cs:142 | `/` on `long` truncates toward zero. Bounds are given for both signs. |
| Storage.PackagesTotal | src/GprTool/Program.cs:110-122 | The tally of the nested loops. Its meaning, the sum of the non-null sizes of all files listed, is `PackagesTotalIsFilesTotal`. |
| Storage.StorageMegabytes | src/GprTool/Program.cs:142 | `total / (1024 * 1024)` on `long`: for a non-negative total, the number of whole megabytes in it. A negative total is rounded toward zero. |
| Storage.PackagesTotalIsFilesTotal | src/GprTool/Program.cs:110-122 | The nested per-package, per-version tally is the sum of the non-null sizes of all files listed. |
| Storage.FilesTotalBound | src/GprTool/Program.cs:118-121 | n files add up to a value within n × 2^31 of zero. |
| Storage.StorageFitsInLong | src/GprTool/Program.cs:110-122 | With fewer than 2^32 files listed, the total fits in a `long`. |
| Storage.TotalStorage | src/GprTool/Program.cs:110-122 | The three nested loops compute `PackagesTotal`. |
| Storage.FilesCommand | src/GprTool/Program.cs:79-144 | Exit 0 iff a token, a path and a listing are all present, reporting the megabytes of the total. Otherwise exit 1 and no report. |

## Left out

- The asynchronous, concurrent `ForEachAsync` over package files, and its `--concurrency`
  option. `Push.UploadAll` uploads the files one after another. Each file's flag depends only
  on its own run, which is what the model captures.
- Timeouts, attempt exceptions and cancellation are not modelled. The transport yields only
  results (status codes). Polly's inner timeout reports a timed-out attempt as an exception,
  which the result-only retry policy does not handle. Whether such an attempt is retried, and
  what happens to `IsUploaded`, is left open. `Retry.WorstCaseDuration` is only the arithmetic
  consequence of `AttemptCount` ≤ R + 1, assuming each attempt lasts at most the timeout.
- Transport exceptions in the GraphQL commands `files` and `delete` are not modelled, except
  a delete mutation's `GraphQLException`, which counts as a failed deletion. Any other
  exception aborts the command, the docker clean-up included, and `Main` turns it into exit
  code 1.
- The nupkg rewriting, manifest reading and owner/repository discovery. The lines 389-393
  and 405-436 reject an invalid `--version`, a missing file or a missing repository URL by
  returning 1 before anything is uploaded. `NuGetUtilities` is not part of this model.
- Console output, REST and GraphQL transports, and the query limits of 100 versions and 40
  files per version. Listings and mutation answers are inputs.
- The `details`, `list`, `setApiKey` commands, the Ctrl-C handler and the debugger loop in
  `Main`. They perform I/O only.
- Storage.TotalStorage: does not model the 64-bit wrap-around of `totalStorage`.
  `Storage.StorageFitsInLong` shows it cannot happen with fewer than 2^32 files.
