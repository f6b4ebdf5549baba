/**
  Where every command finds its personal access token
  (src/GprTool/Program.cs, GprCommandBase.GetAccessToken and FindReadPackagesToken).

  The three places looked in are inputs: the `--api-key` option, the token
  found in the NuGet configuration file, and the READ_PACKAGES_TOKEN
  environment variable (None where the C# value is null).
 */
module AccessToken {
  import opened Wrappers
  import opened Utf16

  datatype TokenSources = TokenSources(
    apiKey: Option<Utf16String>,
    configToken: Option<Utf16String>,
    readPackagesEnv: Option<Utf16String>)

  /** The ApplicationException "Couldn't find personal access token". */
  datatype TokenError = TokenNotFound

  /** READ_PACKAGES_TOKEN, trimmed, when it is set to something other than the empty string. */
  function FindReadPackagesToken(env: Option<Utf16String>): (r: Option<Utf16String>)
    ensures r.None? <==> env.None? || env.value == []
    ensures r.Some? ==> IsTrimmed(r.value)
  {
    if env.Some? && env.value != [] then Some(Trim(env.value)) else None
  }

  /**
    The first source present wins, and is trimmed; with none of them the
    lookup fails.
   */
  function GetAccessToken(src: TokenSources): (r: Result<Utf16String, TokenError>)
    ensures r.Err? <==>
      src.apiKey.None? && src.configToken.None? && (src.readPackagesEnv.None? || src.readPackagesEnv.value == [])
    ensures r.Ok? ==> IsTrimmed(r.value)
  {
    if src.apiKey.Some? then Ok(Trim(src.apiKey.value))
    else if src.configToken.Some? then Ok(Trim(src.configToken.value))
    else
      match FindReadPackagesToken(src.readPackagesEnv)
      case Some(readToken) => Ok(Trim(readToken))
      case None => Err(TokenNotFound)
  }

  /** The source the token is taken from: the first present one, the environment only if non-empty. */
  function Winner(src: TokenSources): Option<Utf16String> {
    if src.apiKey.Some? then src.apiKey
    else if src.configToken.Some? then src.configToken
    else if src.readPackagesEnv.Some? && src.readPackagesEnv.value != [] then src.readPackagesEnv
    else None
  }

  /**
    The token is the winning source trimmed once (the environment value is
    trimmed twice in the code, which is the same thing), and there is an error
    exactly when no source wins.
   */
  lemma TokenIsTrimmedWinner(src: TokenSources)
    ensures GetAccessToken(src).Err? <==> Winner(src).None?
    ensures Winner(src).Some? ==> GetAccessToken(src) == Ok(Trim(Winner(src).value))
  {
    if src.apiKey.None? && src.configToken.None? && Winner(src).Some? {
      TrimIdempotent(src.readPackagesEnv.value);
    }
  }

  /**
    Whatever is returned has no white space at either end, and is empty only
    when its source held nothing but white space.
   */
  lemma TokenIsTrimmed(src: TokenSources)
    requires GetAccessToken(src).Ok?
    ensures Winner(src).Some?
    ensures IsTrimmed(GetAccessToken(src).value)
    ensures GetAccessToken(src).value == [] <==> AllWhiteSpace(Winner(src).value)
  {
    TokenIsTrimmedWinner(src);
  }

  /** An `--api-key` wins over everything else. */
  lemma ApiKeyWins(key: Utf16String, config: Option<Utf16String>, env: Option<Utf16String>)
    ensures GetAccessToken(TokenSources(Some(key), config, env)) == Ok(Trim(key))
  {
  }

  /** A READ_PACKAGES_TOKEN of only white space is found, and gives the empty token rather than an error. */
  lemma WhiteSpaceEnvGivesEmptyToken(env: Utf16String)
    requires env != [] && AllWhiteSpace(env)
    ensures GetAccessToken(TokenSources(None, None, Some(env))) == Ok([])
  {
  }

  /** An empty READ_PACKAGES_TOKEN counts as not set. */
  lemma EmptyEnvIsMissing()
    ensures GetAccessToken(TokenSources(None, None, Some([]))) == Err(TokenNotFound)
  {
  }
}
