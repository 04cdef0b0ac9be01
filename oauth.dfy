/**
  The access-token lifecycle of `g_oauth_token`: a single token file, a password
  grant (`g_oauth_newtoken`) and a refresh grant (`g_oauth_refresh`). The two
  grants are abstract responses; `now` is the current POSIX time in seconds.
*/
module OAuth {

  import opened Wrappers

  /** What the token file records: the grant's tokens and `expiration_dt`. */
  datatype Credential = Credential(accessToken: string, refreshToken: string, expiration: int)

  /** The JSON body of a grant; a refresh with a rejected refresh token has no `expiresIn`. */
  datatype TokenResponse = TokenResponse(accessToken: string, refreshToken: string, expiresIn: Option<int>)

  /**
    The token file. `Unreadable` is the file that exists but holds no JSON: the
    password branch opens the file for writing before it reads `expiresIn`.
  */
  datatype TokenFile = NoFile | Unreadable | Saved(credential: Credential)

  /** A request sent to the provider. */
  datatype Call = Issue | Refresh(refreshToken: string)

  datatype AuthError =
    | MissingExpiresIn    // the `KeyError` on `expiresIn` of a password grant
    | UnreadableTokenFile // `json.load` on a token file that holds no JSON

  /** The result of one call, the token file afterwards, and the requests sent, in order. */
  datatype Step = Step(token: Result<string, AuthError>, file: TokenFile, calls: seq<Call>)

  /** The file contents written after a grant that carries `expiresIn`. */
  function Record(response: TokenResponse, now: int): Credential
    requires response.expiresIn.Some?
  {
    Credential(response.accessToken, response.refreshToken, now + response.expiresIn.value)
  }

  /** How deep `g_oauth_token` can still recurse from this file: only a saved file leads to a retry. */
  function Depth(file: TokenFile): nat
  {
    if file.Saved? then 1 else 0
  }

  /**
    What `g_oauth_token` does from the token file `file`: issue when there is no
    file, return the saved token while its expiration is after `now`, and
    otherwise refresh; a refresh answer without `expiresIn` deletes the file and
    starts again.
  */
  function Lifecycle(file: TokenFile, now: int, issued: TokenResponse, refreshWith: string -> TokenResponse): Step
    decreases Depth(file)
  {
    match file
    case NoFile =>
      if issued.expiresIn.None? then Step(Err(MissingExpiresIn), Unreadable, [Issue])
      else Step(Ok(issued.accessToken), Saved(Record(issued, now)), [Issue])
    case Unreadable =>
      Step(Err(UnreadableTokenFile), Unreadable, [])
    case Saved(c) =>
      if c.expiration > now then Step(Ok(c.accessToken), file, [])
      else
        var refreshed := refreshWith(c.refreshToken);
        if refreshed.expiresIn.None? then
          var again := Lifecycle(NoFile, now, issued, refreshWith);
          Step(again.token, again.file, [Refresh(c.refreshToken)] + again.calls)
        else Step(Ok(refreshed.accessToken), Saved(Record(refreshed, now)), [Refresh(c.refreshToken)])
  }

  /** The token file, owned by the one process that polls. */
  class TokenCache {
    var file: TokenFile

    constructor (file: TokenFile)
      ensures this.file == file
    {
      this.file := file;
    }

    /**
      `g_oauth_token`. `issued` is the answer the password grant gives and
      `refreshWith(t)` the answer the refresh grant gives for the refresh token `t`.
    */
    method GetToken(now: int, issued: TokenResponse, refreshWith: string -> TokenResponse)
      returns (token: Result<string, AuthError>, calls: seq<Call>)
      modifies this
      decreases Depth(file)
      ensures Step(token, file, calls) == Lifecycle(old(file), now, issued, refreshWith)
    {
      if file.NoFile? {
        file := Unreadable;
        calls := [Issue];
        if issued.expiresIn.None? {
          return Err(MissingExpiresIn), calls;
        }
        file := Saved(Record(issued, now));
        return Ok(issued.accessToken), calls;
      }
      if file.Unreadable? {
        return Err(UnreadableTokenFile), [];
      }
      var saved := file.credential;
      if saved.expiration > now {
        return Ok(saved.accessToken), [];
      }
      var refreshed := refreshWith(saved.refreshToken);
      if refreshed.expiresIn.None? {
        file := NoFile;
        var again;
        token, again := GetToken(now, issued, refreshWith);
        return token, [Refresh(saved.refreshToken)] + again;
      }
      file := Saved(Record(refreshed, now));
      return Ok(refreshed.accessToken), [Refresh(saved.refreshToken)];
    }
  }

  // ---------------------------------------------------------------------------
  // Properties of the lifecycle

  /** A saved token that has not expired is returned with no request and the file untouched. */
  lemma CacheHit(c: Credential, now: int, issued: TokenResponse, refreshWith: string -> TokenResponse)
    requires c.expiration > now
    ensures Lifecycle(Saved(c), now, issued, refreshWith) == Step(Ok(c.accessToken), Saved(c), [])
  {
  }

  /** Without a token file, the password grant is called once and its answer saved with `now + expiresIn`. */
  lemma IssueWithoutFile(now: int, issued: TokenResponse, refreshWith: string -> TokenResponse)
    ensures var step := Lifecycle(NoFile, now, issued, refreshWith);
            step.calls == [Issue] &&
            match issued.expiresIn
            case Some(seconds) =>
              step.token == Ok(issued.accessToken) &&
              step.file == Saved(Credential(issued.accessToken, issued.refreshToken, now + seconds))
            case None => step.token == Err(MissingExpiresIn) && step.file == Unreadable
  {
  }

  /**
    An expired token is refreshed with its own refresh token. A refreshed answer
    with `expiresIn` replaces the whole file; one without it leads to exactly one
    password grant, whose outcome is the outcome of the call.
  */
  lemma ExpiredRefreshes(c: Credential, now: int, issued: TokenResponse, refreshWith: string -> TokenResponse)
    requires c.expiration <= now
    ensures var step := Lifecycle(Saved(c), now, issued, refreshWith);
            var refreshed := refreshWith(c.refreshToken);
            match refreshed.expiresIn
            case Some(seconds) =>
              step == Step(Ok(refreshed.accessToken),
                           Saved(Credential(refreshed.accessToken, refreshed.refreshToken, now + seconds)),
                           [Refresh(c.refreshToken)])
            case None =>
              var reissued := Lifecycle(NoFile, now, issued, refreshWith);
              step == Step(reissued.token, reissued.file, [Refresh(c.refreshToken), Issue])
  {
  }

  /**
    One call sends at most one refresh and at most one password grant, the refresh
    first: the recursion after deleting the file re-enters only once.
  */
  lemma AtMostOneRetry(file: TokenFile, now: int, issued: TokenResponse, refreshWith: string -> TokenResponse)
    ensures var calls := Lifecycle(file, now, issued, refreshWith).calls;
            calls == [] || calls == [Issue] ||
            (file.Saved? && (calls == [Refresh(file.credential.refreshToken)] ||
                             calls == [Refresh(file.credential.refreshToken), Issue]))
  {
  }

  /**
    A token is handed out only while the file records it with an expiration after
    `now`, provided the provider grants a positive lifetime.
  */
  lemma ReturnedTokenIsCurrent(file: TokenFile, now: int, issued: TokenResponse, refreshWith: string -> TokenResponse)
    requires issued.expiresIn.Some? ==> issued.expiresIn.value > 0
    requires forall t :: refreshWith(t).expiresIn.Some? ==> refreshWith(t).expiresIn.value > 0
    ensures var step := Lifecycle(file, now, issued, refreshWith);
            step.token.Ok? ==>
              step.file.Saved? && step.file.credential.accessToken == step.token.value &&
              step.file.credential.expiration > now
  {
  }

  /**
    A failed call always leaves a token file that holds no JSON, and from such a
    file every later call fails without a request: the process cannot recover by
    itself.
  */
  lemma FailureIsPermanent(file: TokenFile, now: int, later: int, issued: TokenResponse,
                           refreshWith: string -> TokenResponse, issuedLater: TokenResponse,
                           refreshLater: string -> TokenResponse)
    ensures var step := Lifecycle(file, now, issued, refreshWith);
            step.token.Err? ==>
              step.file == Unreadable &&
              Lifecycle(step.file, later, issuedLater, refreshLater) == Step(Err(UnreadableTokenFile), Unreadable, [])
  {
  }

  // ---------------------------------------------------------------------------
  // The lifecycle with the `expiresIn` check moved before the file is opened

  /**
    `Lifecycle` with one change: the password grant's answer is checked before
    the token file is written, so a grant without `expiresIn` leaves no file.
  */
  function IntendedLifecycle(file: TokenFile, now: int, issued: TokenResponse,
                             refreshWith: string -> TokenResponse): Step
    decreases Depth(file)
  {
    match file
    case NoFile =>
      if issued.expiresIn.None? then Step(Err(MissingExpiresIn), NoFile, [Issue])
      else Step(Ok(issued.accessToken), Saved(Record(issued, now)), [Issue])
    case Unreadable =>
      Step(Err(UnreadableTokenFile), Unreadable, [])
    case Saved(c) =>
      if c.expiration > now then Step(Ok(c.accessToken), file, [])
      else
        var refreshed := refreshWith(c.refreshToken);
        if refreshed.expiresIn.None? then
          var again := IntendedLifecycle(NoFile, now, issued, refreshWith);
          Step(again.token, again.file, [Refresh(c.refreshToken)] + again.calls)
        else Step(Ok(refreshed.accessToken), Saved(Record(refreshed, now)), [Refresh(c.refreshToken)])
  }

  /**
    The two lifecycles agree on every result and every request sent; they differ
    only in the file a failed call leaves behind when it started from a readable
    file (or none): no file instead of an empty one.
  */
  lemma IntendedDiffersOnlyOnFailure(file: TokenFile, now: int, issued: TokenResponse,
                                     refreshWith: string -> TokenResponse)
    ensures var step := Lifecycle(file, now, issued, refreshWith);
            IntendedLifecycle(file, now, issued, refreshWith) ==
              if step.token.Err? && !file.Unreadable? then Step(step.token, NoFile, step.calls) else step
  {
  }

  /**
    Under the intended lifecycle a failed call that did not start from an
    unreadable file leaves no file, so the next call issues a new token as soon
    as the provider answers with `expiresIn`.
  */
  lemma IntendedRecovers(file: TokenFile, now: int, later: int, issued: TokenResponse,
                         refreshWith: string -> TokenResponse, issuedLater: TokenResponse,
                         refreshLater: string -> TokenResponse)
    requires issuedLater.expiresIn.Some?
    ensures var step := IntendedLifecycle(file, now, issued, refreshWith);
            step.token.Err? && !file.Unreadable? ==>
              step.file == NoFile &&
              IntendedLifecycle(step.file, later, issuedLater, refreshLater) ==
                Step(Ok(issuedLater.accessToken), Saved(Record(issuedLater, later)), [Issue])
  {
  }

  /**
    A password grant without `expiresIn`, followed by a good one: the code as
    written keeps failing, the intended lifecycle saves the new token.
  */
  lemma MissingExpiresInExample(now: int, later: int, refreshWith: string -> TokenResponse)
    ensures var bad := TokenResponse("a", "r", None);
            var good := TokenResponse("b", "s", Some(3600));
            var first := Lifecycle(NoFile, now, bad, refreshWith);
            var intended := IntendedLifecycle(NoFile, now, bad, refreshWith);
            first.token == Err(MissingExpiresIn) &&
            Lifecycle(first.file, later, good, refreshWith).token == Err(UnreadableTokenFile) &&
            IntendedLifecycle(intended.file, later, good, refreshWith).token == Ok("b")
  {
  }
}
