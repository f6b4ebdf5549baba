/**
  The upload part of the `push` command (src/GprTool/Program.cs, PushCommand).

  Each package file is uploaded under the resilience policy; every attempt
  overwrites the file's IsUploaded flag with "the registry answered 200", and
  the command exits 0 exactly when every file ended up uploaded.
 */
module Push {
  import opened Wrappers
  import opened Retry
  import AccessToken

  /** The part of NuGetUtilities' PackageFile the upload touches. */
  class PackageFile {
    const filename: seq<char>
    var isUploaded: bool

    constructor (filename: seq<char>)
      ensures this.filename == filename && !isUploaded
    {
      this.filename := filename;
      isUploaded := false;
    }
  }

  /** Whether a run of the policy against this transport ends with the registry answering 200. */
  ghost predicate EndsUploaded(p: Policy, status: nat -> StatusCode) {
    status(AttemptCount(p, status) - 1) == OK
  }

  /** One attempt (UploadPackageAsyncImpl): the response is captured and IsUploaded set from it. */
  method UploadAttempt(file: PackageFile, response: StatusCode) returns (captured: StatusCode)
    modifies file
    ensures captured == response
    ensures file.isUploaded == (response == OK)
  {
    file.isUploaded := response == OK;
    captured := response;
  }

  /**
    `retryPolicy.ExecuteAndCaptureAsync(...)` around the attempt: attempts are
    made while the last status is retryable and the retries are not used up,
    with the policy's fixed delay before each retry.
   */
  method UploadPackage(file: PackageFile, policy: Policy, transport: nat -> StatusCode)
    returns (attempts: nat, last: StatusCode, sleptSeconds: nat)
    modifies file
    ensures attempts == AttemptCount(policy, transport)
    ensures 1 <= attempts <= RetryCount(policy) + 1
    ensures last == transport(attempts - 1)
    ensures file.isUploaded == (last == OK) == EndsUploaded(policy, transport)
    ensures sleptSeconds == (attempts - 1) * SleepSeconds(policy)
  {
    last := UploadAttempt(file, transport(0));
    attempts, sleptSeconds := 1, 0;
    while attempts <= RetryCount(policy) && Classify(last) == RetryableFailure
      invariant 1 <= attempts <= RetryCount(policy) + 1
      invariant last == transport(attempts - 1)
      invariant file.isUploaded == (last == OK)
      invariant forall k :: 0 <= k < attempts - 1 ==> IsRetryable(transport(k))
      invariant sleptSeconds == (attempts - 1) * SleepSeconds(policy)
      decreases RetryCount(policy) + 1 - attempts
    {
      sleptSeconds := sleptSeconds + SleepSeconds(policy);
      last := UploadAttempt(file, transport(attempts));
      attempts := attempts + 1;
    }
    AttemptCountIsRun(policy, transport);
    AttemptRunUnique(RetryCount(policy), transport, attempts, AttemptCount(policy, transport));
  }

  /**
    What happens to one file: its run under the policy against its transport,
    or `None` when the file's own pipeline throws before the first attempt
    (rewriting the nupkg or reading its manifest). The throw is reported by
    the `ForEachAsync` error handler and the other files carry on.
   */
  type FileTransport = Option<nat -> StatusCode>

  /** The flag a file ends with: the outcome of its run, or what it was when it never reached the policy. */
  ghost function UploadedAfter(p: Policy, t: FileTransport, before: bool): bool {
    if t.Some? then EndsUploaded(p, t.value) else before
  }

  /**
    Every file is uploaded under the same policy, each against its own
    transport; an item's outcome never touches another item's flag.
   */
  method UploadAll(files: seq<PackageFile>, policy: Policy, transports: seq<FileTransport>)
    requires |transports| == |files|
    requires forall i, j :: 0 <= i < j < |files| ==> files[i] != files[j]
    modifies set f | f in files
    ensures forall i :: 0 <= i < |files| ==>
      files[i].isUploaded == UploadedAfter(policy, transports[i], old(files[i].isUploaded))
  {
    var i := 0;
    while i < |files|
      invariant 0 <= i <= |files|
      invariant forall j :: 0 <= j < i ==>
        files[j].isUploaded == UploadedAfter(policy, transports[j], old(files[j].isUploaded))
      invariant forall j :: i <= j < |files| ==> files[j].isUploaded == old(files[j].isUploaded)
    {
      if transports[i].Some? {
        var attempts, last, slept := UploadPackage(files[i], policy, transports[i].value);
      }
      i := i + 1;
    }
  }

  /**
    The command once its package files are found and checked: the token is
    looked up (a missing token throws, which Main turns into exit code 1),
    every file is uploaded under the policy built from `--retries`, and the
    exit code is 0 iff every file is uploaded. No files at all is an error
    too (exit 1). Files are built fresh, not uploaded, so one whose pipeline
    throws makes the command fail.
   */
  method PushPackages(files: seq<PackageFile>, tokens: AccessToken.TokenSources, retries: int,
                      transports: seq<FileTransport>)
    returns (exitCode: int)
    requires |transports| == |files|
    requires forall i, j :: 0 <= i < j < |files| ==> files[i] != files[j]
    modifies set f | f in files
    ensures exitCode == 0 || exitCode == 1
    ensures exitCode == 0 <==>
      && |files| > 0
      && AccessToken.GetAccessToken(tokens).Ok?
      && forall i :: 0 <= i < |files| ==> files[i].isUploaded
    ensures |files| == 0 || AccessToken.GetAccessToken(tokens).Err? ==>
      forall i :: 0 <= i < |files| ==> files[i].isUploaded == old(files[i].isUploaded)
    ensures |files| > 0 && AccessToken.GetAccessToken(tokens).Ok? ==>
      forall i :: 0 <= i < |files| ==>
        files[i].isUploaded == UploadedAfter(PushPolicy(retries), transports[i], old(files[i].isUploaded))
    ensures
      && (forall i :: 0 <= i < |files| ==> !old(files[i].isUploaded))
      && (exists i :: 0 <= i < |files| && transports[i].None?)
      ==> exitCode == 1
  {
    var token := AccessToken.GetAccessToken(tokens);
    if |files| == 0 || token.Err? {
      return 1;
    }
    UploadAll(files, PushPolicy(retries), transports);
    exitCode := if forall j :: 0 <= j < |files| ==> files[j].isUploaded then 0 else 1;
  }

  /**
    Three archives, no retries: the registry answers 200 for the first and
    409 for the second, and the third fails before its upload. Only the first
    is uploaded (each file had one attempt at most), and the command fails.
   */
  method ConflictScenario(tokens: AccessToken.TokenSources)
    requires AccessToken.GetAccessToken(tokens).Ok?
  {
    var a := new PackageFile("a.nupkg");
    var b := new PackageFile("b.nupkg");
    var c := new PackageFile("c.nupkg");
    var ok: nat -> StatusCode := _ => OK;
    var conflict: nat -> StatusCode := _ => Conflict;
    var transports := [Some(ok), Some(conflict), None];
    var code := PushPackages([a, b, c], tokens, 0, transports);
    assert transports[0] == Some(ok) && transports[1] == Some(conflict) && transports[2] == None;
    TerminalFirstAttempt(PushPolicy(0), ok);
    TerminalFirstAttempt(PushPolicy(0), conflict);
    assert a.isUploaded && !b.isUploaded && !c.isUploaded;
    assert code == 1;
  }

  /** One archive, three retries, two server errors and then 200: three attempts, uploaded. */
  method RecoveryScenario(tokens: AccessToken.TokenSources)
    requires AccessToken.GetAccessToken(tokens).Ok?
  {
    var a := new PackageFile("a.nupkg");
    var flaky: nat -> StatusCode := k => if k < 2 then 503 else OK;
    SucceedsAfterFailures(PushPolicy(3), flaky, 2);
    var attempts, last, slept := UploadPackage(a, PushPolicy(3), flaky);
    assert attempts == 3 && a.isUploaded && slept == 2 * RetrySleepSeconds;
  }
}
