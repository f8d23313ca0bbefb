/**
 * The pure helpers of lib/providers/tmdb.ts (image and poster URLs, the
 * request URL) and the control flow of `fetchWithRetry` over the outcomes of
 * its requests. The network is the parameter `fetch`, which gives the outcome
 * of the `i`-th request to a URL; the waits are recorded instead of slept.
 */
module Tmdb {
  import opened Options
  import opened Text

  const BaseUrl := "https://api.themoviedb.org/3"
  const ImageBase := "https://image.tmdb.org/t/p"

  /** The image widths TMDB serves; `getImageUrl` accepts w200, w300, w500,
      w780 and original, `getPosterUrl` w154, w185, w342, w500, w780 and original. */
  datatype Size = W154 | W185 | W200 | W300 | W342 | W500 | W780 | Original

  predicate ImageSize(s: Size) { s == W200 || s == W300 || s == W500 || s == W780 || s == Original }
  predicate PosterSize(s: Size) { s == W154 || s == W185 || s == W342 || s == W500 || s == W780 || s == Original }

  function SizeName(s: Size): string {
    match s
    case W154 => "w154"
    case W185 => "w185"
    case W200 => "w200"
    case W300 => "w300"
    case W342 => "w342"
    case W500 => "w500"
    case W780 => "w780"
    case Original => "original"
  }

  /** The URL of an image at a size: none for a null or empty path. */
  function ImageUrl(path: Option<string>, size: Size): (r: Option<string>)
    ensures r.None? <==> path.None? || path.value == []
  {
    if path.None? || path.value == [] then None
    else Some(ImageBase + "/" + SizeName(size) + path.value)
  }

  /** `getImageUrl(path, size = 'w500')`. */
  function GetImageUrl(path: Option<string>, size: Size := W500): (r: Option<string>)
    requires ImageSize(size)
    ensures r == ImageUrl(path, size)
  {
    ImageUrl(path, size)
  }

  /** `getPosterUrl(path, size = 'w500')`. */
  function GetPosterUrl(path: Option<string>, size: Size := W500): (r: Option<string>)
    requires PosterSize(size)
    ensures r == ImageUrl(path, size)
  {
    ImageUrl(path, size)
  }

  const Sizes := [W154, W185, W200, W300, W342, W500, W780, Original]

  /** The size whose name starts `rest`, trying the sizes from `Sizes[i]` on. */
  function SizeAt(rest: string, i: nat): (r: Option<Size>)
    requires i <= |Sizes|
    ensures r.Some? ==> StartsWith(rest, SizeName(r.value))
    decreases |Sizes| - i
  {
    if i == |Sizes| then None
    else if StartsWith(rest, SizeName(Sizes[i])) then Some(Sizes[i])
    else SizeAt(rest, i + 1)
  }

  /** Reads the size and the path back from an image URL. */
  function ParseImageUrl(url: string): (r: Option<(Size, string)>)
    ensures r.Some? ==> r.value.1 != [] && ImageUrl(Some(r.value.1), r.value.0) == Some(url)
  {
    var prefix := ImageBase + "/";
    if !StartsWith(url, prefix) then None
    else
      var rest := url[|prefix|..];
      match SizeAt(rest, 0)
      case None => None
      case Some(size) =>
        var path := rest[|SizeName(size)|..];
        if path == [] then None
        else
          assert url == prefix + SizeName(size) + path by {
            assert url == prefix + rest;
            assert rest == SizeName(size) + path;
          }
          Some((size, path))
  }

  /** The second and third characters of a size's name, which tell the sizes apart. */
  function Tag(s: Size): (t: (char, char))
    ensures |SizeName(s)| >= 4 && t == (SizeName(s)[1], SizeName(s)[2])
  {
    match s
    case W154 => ('1', '5')
    case W185 => ('1', '8')
    case W200 => ('2', '0')
    case W300 => ('3', '0')
    case W342 => ('3', '4')
    case W500 => ('5', '0')
    case W780 => ('7', '8')
    case Original => ('r', 'i')
  }

  lemma TagInjective(a: Size, b: Size)
    requires Tag(a) == Tag(b)
    ensures a == b
  {
  }

  /** The position of a size in `Sizes`. */
  function Position(s: Size): (k: nat)
    ensures k < |Sizes| && Sizes[k] == s
  {
    match s
    case W154 => 0
    case W185 => 1
    case W200 => 2
    case W300 => 3
    case W342 => 4
    case W500 => 5
    case W780 => 6
    case Original => 7
  }

  lemma {:induction false} SizeAtFinds(rest: string, i: nat, k: nat)
    requires i <= k < |Sizes| && StartsWith(rest, SizeName(Sizes[k]))
    ensures SizeAt(rest, i).Some?
    decreases k - i
  {
    if i < k && !StartsWith(rest, SizeName(Sizes[i])) {
      SizeAtFinds(rest, i + 1, k);
    }
  }

  /** No size name starts with the name of another size, so a size name
      followed by anything is recognised as that size. */
  lemma SizeRecognised(size: Size, path: string)
    ensures SizeAt(SizeName(size) + path, 0) == Some(size)
  {
    var rest := SizeName(size) + path;
    assert StartsWith(rest, SizeName(size));
    SizeAtFinds(rest, 0, Position(size));
    var found := SizeAt(rest, 0).value;
    assert rest[..|SizeName(found)|] == SizeName(found);
    assert SizeName(found)[1] == rest[1] == SizeName(size)[1];
    assert SizeName(found)[2] == rest[2] == SizeName(size)[2];
    TagInjective(found, size);
  }

  /** Every image URL is read back as the size and path it was built from, so
      different paths or sizes never give the same URL. */
  lemma ImageUrlRoundTrip(path: string, size: Size)
    requires path != []
    ensures ParseImageUrl(ImageUrl(Some(path), size).value) == Some((size, path))
  {
    var prefix := ImageBase + "/";
    var url := ImageUrl(Some(path), size).value;
    assert url == prefix + (SizeName(size) + path);
    assert url[..|prefix|] == prefix && url[|prefix|..] == SizeName(size) + path;
    SizeRecognised(size, path);
    assert (SizeName(size) + path)[|SizeName(size)|..] == path;
  }

  /** The number of times `c` occurs in `s`. */
  function Count(s: string, c: char): nat {
    if s == [] then 0 else (if s[0] == c then 1 else 0) + Count(s[1..], c)
  }

  lemma {:induction false} CountAppend(a: string, b: string, c: char)
    ensures Count(a + b, c) == Count(a, c) + Count(b, c)
  {
    if a != [] {
      CountAppend(a[1..], b, c);
      assert (a + b)[0] == a[0] && (a + b)[1..] == a[1..] + b;
    } else {
      assert a + b == b;
    }
  }

  lemma {:induction false} CountZero(s: string, c: char)
    ensures Count(s, c) == 0 <==> c !in s
  {
    if s != [] {
      CountZero(s[1..], c);
      assert s == [s[0]] + s[1..];
    }
  }

  /** The URL of `fetchWithRetry`: the API key is added as a query parameter,
      after `&` when the endpoint already has a query and after `?` otherwise. */
  function RequestUrl(baseUrl: string, endpoint: string, apiKey: string): (url: string)
    ensures |url| == |baseUrl| + |endpoint| + 1 + |"api_key="| + |apiKey|
    ensures url[..|baseUrl| + |endpoint|] == baseUrl + endpoint
  {
    baseUrl + endpoint + (if '?' in endpoint then "&" else "?") + "api_key=" + apiKey
  }

  /** With a base URL and key free of `?`, and an endpoint with at most one,
      the request URL has exactly one `?`. */
  lemma RequestUrlHasOneQuery(baseUrl: string, endpoint: string, apiKey: string)
    requires '?' !in baseUrl && '?' !in apiKey && Count(endpoint, '?') <= 1
    ensures Count(RequestUrl(baseUrl, endpoint, apiKey), '?') == 1
  {
    var sep := if '?' in endpoint then "&" else "?";
    var tail := "api_key=" + apiKey;
    assert RequestUrl(baseUrl, endpoint, apiKey) == baseUrl + endpoint + (sep + tail);
    CountAppend(baseUrl, endpoint, '?');
    CountAppend(baseUrl + endpoint, sep + tail, '?');
    CountAppend(sep, tail, '?');
    CountZero(baseUrl, '?');
    CountZero(endpoint, '?');
    assert Count(tail, '?') == 0 by {
      assert '?' !in tail;
      CountZero(tail, '?');
    }
  }

  /** The request URL ends with the key parameter, after `&` when the endpoint
      already has a query and after `?` otherwise. */
  lemma RequestUrlEndsWithKey(baseUrl: string, endpoint: string, apiKey: string)
    ensures var tail := "api_key=" + apiKey; var url := RequestUrl(baseUrl, endpoint, apiKey);
      |tail| < |url| && url[|url| - |tail|..] == tail
      && url[|url| - |tail| - 1] == (if '?' in endpoint then '&' else '?')
  {
    var sep := if '?' in endpoint then "&" else "?";
    var tail := "api_key=" + apiKey;
    var url := RequestUrl(baseUrl, endpoint, apiKey);
    assert url == (baseUrl + endpoint + sep) + tail;
  }

  // ---------------------------------------------------------------------
  // fetchWithRetry

  /** The outcome of one request: a successful response's parsed body, a 429,
      or any other failure (another status, a network error, a body that is not
      JSON) with the message of the error it raises. */
  datatype Attempt = Ok(body: string) | TooManyRequests | Failure(message: string)

  /** What `fetchWithRetry` resolves to or throws. */
  datatype Fetched =
    | Fetched(body: string)
    | MissingApiKey
    | GaveUp
    | Threw(message: string)

  /** The result together with the number of requests made and the waits, in order. */
  datatype FetchRun = FetchRun(result: Fetched, attempts: nat, sleeps: seq<int>)

  const DefaultRetries := 3
  const DefaultDelay := 1000

  /** The loop from attempt `i` on: an ok response ends it; a 429 waits
      `delay * (i + 1)` and goes on; another failure is rethrown on the last
      attempt and otherwise waits as a 429 does; after the last attempt the
      loop gives up. */
  function Retry(fetch: (string, nat) -> Attempt, url: string, i: nat, retries: int, delay: int): (run: FetchRun)
    ensures run.attempts <= (if retries > i then retries - i else 0)
    ensures !run.result.MissingApiKey?
    ensures |run.sleeps| <= run.attempts
    ensures forall k :: 0 <= k < |run.sleeps| ==> run.sleeps[k] == delay * (i + k + 1)
    decreases retries - i
  {
    if i >= retries then FetchRun(GaveUp, 0, [])
    else
      match fetch(url, i)
      case Ok(body) => FetchRun(Fetched(body), 1, [])
      case Failure(message) =>
        if i == retries - 1 then FetchRun(Threw(message), 1, [])
        else
          var rest := Retry(fetch, url, i + 1, retries, delay);
          FetchRun(rest.result, rest.attempts + 1, [delay * (i + 1)] + rest.sleeps)
      case TooManyRequests =>
        var rest := Retry(fetch, url, i + 1, retries, delay);
        FetchRun(rest.result, rest.attempts + 1, [delay * (i + 1)] + rest.sleeps)
  }

  /** `fetchWithRetry(endpoint, retries, delay)` with the provider's key. */
  function FetchSpec(fetch: (string, nat) -> Attempt, apiKey: string, endpoint: string, retries: int, delay: int): (run: FetchRun)
    ensures run.result.MissingApiKey? <==> apiKey == []
    ensures run.attempts <= (if retries > 0 then retries else 0)
  {
    if apiKey == [] then FetchRun(MissingApiKey, 0, [])
    else Retry(fetch, RequestUrl(BaseUrl, endpoint, apiKey), 0, retries, delay)
  }

  /** A missing key fails before any request; otherwise at most `retries`
      requests are made, and the `k`-th wait lasts `delay * (k + 1)`. */
  lemma AttemptsAndBackoff(fetch: (string, nat) -> Attempt, apiKey: string, endpoint: string, retries: int, delay: int)
    ensures var run := FetchSpec(fetch, apiKey, endpoint, retries, delay);
      && (apiKey == [] ==> run == FetchRun(MissingApiKey, 0, []))
      && run.attempts <= (if retries > 0 then retries else 0)
      && |run.sleeps| <= run.attempts
      && forall k :: 0 <= k < |run.sleeps| ==> run.sleeps[k] == delay * (k + 1)
  {
  }

  /** Requests `i` to `j - 1` all failed or hit 429, and request `j` is the
      last one or succeeded. */
  predicate FailedUpTo(fetch: (string, nat) -> Attempt, url: string, i: nat, j: nat) {
    forall k :: i <= k < j ==> !fetch(url, k).Ok?
  }

  /** The first ok response is returned, after exactly as many requests as it
      took, with one wait after each earlier request. */
  lemma {:induction false} FirstOkReturned(fetch: (string, nat) -> Attempt, url: string, i: nat, j: nat, retries: int, delay: int)
    requires i <= j < retries && fetch(url, j).Ok? && FailedUpTo(fetch, url, i, j)
    ensures var run := Retry(fetch, url, i, retries, delay);
      run.result == Fetched(fetch(url, j).body) && run.attempts == j - i + 1 && |run.sleeps| == j - i
    decreases j - i
  {
    if i < j {
      assert !fetch(url, i).Ok?;
      FirstOkReturned(fetch, url, i + 1, j, retries, delay);
    }
  }

  /** When no request succeeds, all `retries` requests are made; the last
      one's failure is rethrown, but a 429 on the last one gives up with the
      "after retries" error. */
  lemma {:induction false} AllFailed(fetch: (string, nat) -> Attempt, url: string, i: nat, retries: int, delay: int)
    requires i < retries && FailedUpTo(fetch, url, i, retries)
    ensures var run := Retry(fetch, url, i, retries, delay);
      && run.attempts == retries - i
      && (fetch(url, retries - 1).TooManyRequests? ==> run.result == GaveUp && |run.sleeps| == retries - i)
      && (fetch(url, retries - 1).Failure? ==> run.result == Threw(fetch(url, retries - 1).message) && |run.sleeps| == retries - i - 1)
    decreases retries - i
  {
    assert !fetch(url, i).Ok?;
    if i < retries - 1 {
      AllFailed(fetch, url, i + 1, retries, delay);
    }
  }

  /** An error is thrown only by the last request, never by an earlier one. */
  lemma {:induction false} ThrowsOnlyLast(fetch: (string, nat) -> Attempt, url: string, i: nat, retries: int, delay: int)
    ensures var run := Retry(fetch, url, i, retries, delay);
      run.result.Threw? ==>
        && i < retries && run.attempts == retries - i
        && fetch(url, retries - 1) == Failure(run.result.message)
    decreases retries - i
  {
    if i < retries && !fetch(url, i).Ok? && i != retries - 1 {
      ThrowsOnlyLast(fetch, url, i + 1, retries, delay);
    }
  }

  /** `fetchWithRetry`: the counted loop, with `continue` after a 429 and the
      catch that retries or rethrows. */
  method FetchWithRetry(fetch: (string, nat) -> Attempt, apiKey: string, endpoint: string,
                        retries: int := DefaultRetries, delay: int := DefaultDelay) returns (run: FetchRun)
    ensures run == FetchSpec(fetch, apiKey, endpoint, retries, delay)
  {
    if apiKey == [] {
      return FetchRun(MissingApiKey, 0, []);
    }
    var url := RequestUrl(BaseUrl, endpoint, apiKey);
    var sleeps: seq<int> := [];
    var i: nat := 0;
    while i < retries
      invariant |sleeps| == i
      invariant var rest := Retry(fetch, url, i, retries, delay);
        FetchSpec(fetch, apiKey, endpoint, retries, delay) == FetchRun(rest.result, i + rest.attempts, sleeps + rest.sleeps)
      decreases retries - i
    {
      ghost var next := Retry(fetch, url, i + 1, retries, delay);
      var outcome := fetch(url, i);
      match outcome {
        case Ok(body) =>
          return FetchRun(Fetched(body), i + 1, sleeps);
        case TooManyRequests =>
          assert sleeps + ([delay * (i + 1)] + next.sleeps) == (sleeps + [delay * (i + 1)]) + next.sleeps;
          sleeps := sleeps + [delay * (i + 1)];
        case Failure(message) =>
          if i == retries - 1 {
            return FetchRun(Threw(message), i + 1, sleeps);
          }
          assert sleeps + ([delay * (i + 1)] + next.sleeps) == (sleeps + [delay * (i + 1)]) + next.sleeps;
          sleeps := sleeps + [delay * (i + 1)];
      }
      i := i + 1;
    }
    return FetchRun(GaveUp, i, sleeps);
  }
}
