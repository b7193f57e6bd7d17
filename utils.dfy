/** Helpers of the worker: the expiry clock arithmetic and the bearer-token check. */
module Utils {
  import opened Wrappers

  /** The largest signed 64-bit integer: `millis as i64` leaves a ttl up to this unchanged. */
  const MaxI64: int := 0x7FFF_FFFF_FFFF_FFFF

  /** future_time: the absolute time, in milliseconds, that lies `millis` after `now`.
      The clock reading is the parameter `now`. */
  function FutureTime(now: int, millis: nat): (t: int)
    requires millis <= MaxI64
    ensures now <= t
    ensures t == now <==> millis == 0
  {
    now + millis
  }

  /** The scheme prefix of the Authorization header, compared case-sensitively. */
  const Bearer: string := "Bearer "

  /** `n` copies of `pat`, one after the other. */
  function Repeat(pat: string, n: nat): string
  {
    if n == 0 then [] else pat + Repeat(pat, n - 1)
  }

  /** str::trim_start_matches with a string pattern: removes the pattern from the
      front for as long as it is there. An empty pattern leaves the string as it is. */
  function TrimStartMatches(s: string, pat: string): (r: string)
    ensures |r| <= |s|
    ensures pat != [] ==> !(pat <= r)
    decreases |s|
  {
    if pat != [] && pat <= s then TrimStartMatches(s[|pat|..], pat) else s
  }

  /** How many copies of `pat` TrimStartMatches removes from the front of `s`. */
  function StripCount(s: string, pat: string): nat
    decreases |s|
  {
    if pat != [] && pat <= s then 1 + StripCount(s[|pat|..], pat) else 0
  }

  /** What TrimStartMatches removes is a run of whole copies of the pattern. */
  lemma {:induction false} TrimLeavesRemainder(s: string, pat: string)
    ensures s == Repeat(pat, StripCount(s, pat)) + TrimStartMatches(s, pat)
    ensures pat <= s && pat != [] ==> StripCount(s, pat) >= 1
    decreases |s|
  {
    if pat != [] && pat <= s {
      var rest := s[|pat|..];
      TrimLeavesRemainder(rest, pat);
      assert s == pat + rest;
      RepeatOnceMore(pat, StripCount(rest, pat), TrimStartMatches(rest, pat));
    }
  }

  /** The result of TrimStartMatches is a suffix of the string it was given. */
  lemma TrimIsSuffix(s: string, pat: string)
    ensures TrimStartMatches(s, pat) == s[|s| - |TrimStartMatches(s, pat)|..]
  {
    TrimLeavesRemainder(s, pat);
  }

  /** One more copy in front of a run of copies followed by a tail. */
  lemma RepeatOnceMore(pat: string, n: nat, tail: string)
    ensures Repeat(pat, n + 1) + tail == pat + (Repeat(pat, n) + tail)
  {
  }

  /** Conversely, behind any run of copies of the pattern, TrimStartMatches finds
      exactly the rest, provided the rest does not itself start with the pattern. */
  lemma {:induction false} TrimFindsRemainder(pat: string, n: nat, rest: string)
    requires pat != [] && !(pat <= rest)
    ensures TrimStartMatches(Repeat(pat, n) + rest, pat) == rest
  {
    var s := Repeat(pat, n) + rest;
    if n == 0 {
      assert s == rest;
    } else {
      assert s == pat + (Repeat(pat, n - 1) + rest);
      assert pat <= s;
      assert s[|pat|..] == Repeat(pat, n - 1) + rest;
      TrimFindsRemainder(pat, n - 1, rest);
    }
  }

  /** is_authorized: the request carries an `Authorization` header that starts with
      "Bearer " and whose remainder, once every leading "Bearer " is stripped, is the
      API key. A header that cannot be read counts as absent (`unwrap_or(None)`). */
  function IsAuthorized(authorization: Option<string>, apiKey: string): (ok: bool)
    ensures authorization.None? ==> !ok
    ensures ok ==> Bearer <= authorization.value
    ensures ok ==> !(Bearer <= apiKey)
  {
    match authorization
    case None => false
    case Some(auth) => Bearer <= auth && TrimStartMatches(auth, Bearer) == apiKey
  }

  /** The accepted headers are exactly one or more copies of "Bearer " followed by
      the key, and only keys that do not themselves begin with "Bearer " can match. */
  lemma IsAuthorizedIff(authorization: Option<string>, apiKey: string)
    ensures IsAuthorized(authorization, apiKey) <==>
      authorization.Some? && !(Bearer <= apiKey) &&
      exists n: nat :: 1 <= n && authorization.value == Repeat(Bearer, n) + apiKey
  {
    if authorization.Some? {
      var auth := authorization.value;
      if IsAuthorized(authorization, apiKey) {
        TrimLeavesRemainder(auth, Bearer);
        var n := StripCount(auth, Bearer);
        assert 1 <= n && auth == Repeat(Bearer, n) + apiKey;
      }
      if !(Bearer <= apiKey) && exists n: nat :: 1 <= n && auth == Repeat(Bearer, n) + apiKey {
        var n: nat :| 1 <= n && auth == Repeat(Bearer, n) + apiKey;
        TrimFindsRemainder(Bearer, n, apiKey);
        assert auth == Bearer + (Repeat(Bearer, n - 1) + apiKey);
      }
    }
  }

  /** The stripping repeats: "Bearer Bearer k" is accepted for the key "k". */
  lemma RepeatedBearerAccepted()
    ensures IsAuthorized(Some("Bearer Bearer k"), "k")
  {
    assert "Bearer Bearer k" == Repeat(Bearer, 2) + "k";
    TrimFindsRemainder(Bearer, 2, "k");
  }

  /** The prefix test is case-sensitive: a lower-case scheme is refused. */
  lemma LowercaseSchemeRefused(apiKey: string)
    ensures !IsAuthorized(Some("bearer " + apiKey), apiKey)
  {
    assert ("bearer " + apiKey)[0] != Bearer[0];
  }
}
