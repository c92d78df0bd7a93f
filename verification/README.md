# A verified model of yai

yai is a reverse proxy in front of LLM providers. This project models the parts of it that hold state or
transform text, and proves what they promise. Each module covers one component:

| module | component |
|---|---|
| `RateLimit`, `LimitSyntax`, `Time` | the per-key window counter, and the notation for limits |
| `Auth`, `LastWins` | the token map, and the gate that asks a token's limiter |
| `UriEncode`, `Canonical`, `Signing`, `Order`, `Sorting`, `Lists`, `Http` | AWS Signature Version 4 as the code does it: percent-encoding, the canonical request, signing |
| `QueryRule`, `PathRule`, `SpacingRule`, `RequestRule`, `Verifying` | AWS Signature Version 4 as its rules have it, and a receiver that verifies by them |
| `CredentialFile` | the reader of AWS credential files |
| `ExpandEnv`, `Configuration` | `${VAR:-default}` substitution; validation of providers and fallback groups |
| `Pricing` | the price table and its prefix lookup |
| `OAuth`, `TokenLock` | the token cache in front of an issuer, and the lock that its callers share |
| `Proxying`, `Fallback` | the proxy's routing, and the retry loop along a fallback group |
| `Reload` | hot reload as a system of steps, interleaved with requests, file edits and a shutdown |
| `Serving` | one server, its reloads and its requests, in sequence |
| `Text` | the string functions that all of them call |

Where the sources change things in place, so does the model: `Limiter` with its `Window` records, `Gate`, `Proxy`,
`Handler`, `Server`, `PriceTable`, `TokenSource` and the HTTP `Request` are classes, and each method is proved
against a function of the inputs and the old state. The properties are lemmas about those functions. Instants and
durations are nanoseconds; 64-bit products are wrapped where the code multiplies. SHA-256 and HMAC are arbitrary
functions; upstreams are an arbitrary function of the request number, the provider and the message; the clock, the
environment and the issuer's replies are parameters. Walks over maps take any order.

## Findings

Where the code does something else than its comments say, the model follows the code and the lemmas say exactly when
the comment holds.

- *Sliding window* (`internal/ratelimit/ratelimit.go:71`). The windows are fixed ones, opened by the first call. A
  closed interval of one window's length can admit `2 * Count - 1` calls, and no more; so the comment holds exactly
  for no calls, for an empty window, and for one call in a window of positive length (`RateLimit.SlidesIff`). For every
  length the exact maximum is known, and some run reaches it (`RateLimit.IntervalBound`,
  `RateLimit.IntervalBoundReached`).
- *Negative windows*. `strconv.Atoi`'s range error is dropped (`internal/ratelimit/ratelimit.go:59`) and the product
  with the unit wraps, so a text such as "1/10000000000s" is accepted with a negative window
  (`LimitSyntax.UnlimitingIff`, `LimitSyntax.TenBillionSeconds`). Such a limit admits every call; it is the only kind
  that no number bounds (`RateLimit.BoundsIff`, `Auth.TokenQuota`). A number beyond 64 bits always gives one
  (`LimitSyntax.BeyondSixtyFour`). The parsed window is the one meant exactly up to
  the 64-bit limit (`LimitSyntax.ParseSpelled`, `LimitSyntax.PrintedLimit`).
- *RetryAfter > 0 when not allowed* (`internal/ratelimit/ratelimit.go:98`). It is 0 in a denial at the very instant
  `resetAt`, which still belongs to the window: with one call in ten ticks, calls at 0 and 10 give it
  (`RateLimit.DeniedWithoutWait`). A denial's `RetryAfter` is the time to one window's length after the last call of
  the key that was told it was the first of its window; so it is 0 exactly when the call comes at that instant
  (`RateLimit.RetryAfterIs`). For the same reason a client that waits exactly as long as the `Retry-After` header says
  is denied once more when the wait was a whole number of seconds, and, as long as the code's `float64` seconds are off
  by less than a nanosecond, only then (`Auth.RetryAfterHeader`, `Auth.RoundedSeconds`). A `float64` is that exact
  below 2^24 seconds; a longer wait of a little over a whole number of seconds can be rounded down, and the header then
  ends too early as well.
- *Canonical requests*. AWS Signature Version 4 encodes names and values before it sorts them, encodes the path (and
  for most services normalises it), and trims each value of a header and makes one space of several in it before it
  puts commas between the values; the code sorts first, takes the decoded path as it is, and trims the joined values
  as a whole (`internal/awssign/awssign.go:160-186`). The two give the same text exactly when the path has only
  unreserved characters and slashes (and is normal), encoding turns around no two names and no two values of one name,
  and, the leading space of a header's first value and the trailing space of its last aside, no signed value begins or
  ends with white space or has two spaces in a row (`RequestRule.FollowsRuleIff`). For the query alone, "A" and "[" as
  two names (`UriEncode.WhereOrderIsKept`) or as two values of one name (`QueryRule.ValuesCanTurn`) make the
  difference; for the headers, a space after the first of two values (`SpacingRule.SpaceBeforeComma`).
- *Signing twice.* A request that still carries an `Authorization` header when it is signed (the proxy's director
  strips the client's, but a provider's extra headers can set one) is signed over the old value, which the new one
  replaces. A receiver that follows the rules accepts a signed request exactly when, that header aside, it conforms,
  and it had no such header before or one that reads as the new one does (`Verifying.SignedIsAcceptedIff`); when the
  old value, if any, was of another kind, such as a bearer token, exactly when there was none and the request conforms
  (`Verifying.OtherKindIff`).
- *A candidate that is configured but could not be set up* is unknown to the proxy, whose 404 is not retriable: it
  ends the fallback loop (`Fallback.UnservedCandidateStops`).
- *Stopping during a reload.* `Stop` reads the recorded checker without the lock and stops it afterwards. The first
  stop leaves another checker running exactly when a reload has started one and not recorded it yet, or has recorded
  one since the stop read and no further reload has stopped that one (`Reload.StopServerIff`): a stop that a whole
  reload overtakes stops the old checker, and the new one runs on in a stopped server (`Reload.OvertakenStop`). A reload that goes on after a stop starts another
  checker (`Reload.CheckerRunsIff`); after a stop that no reload overlaps or follows, none ever runs again
  (`Reload.StoppedForGood`). `cmd/yai/main.go:58-109` handles its signals one after the other and stops the server at
  the end, so it stays on the safe side; the overlap is open to other users of the package only.
- *expires_in.* The lifetimes that the cache gets wrong are exactly those below -2^63 nanoseconds that wrap around to
  more than the margin of 60 s (`OAuth.SafeLifetimeIff`): -10000000000 s is one, and is served although it was over
  before it began; -18446744074 s wraps as well, and is never served (`OAuth.TwoStretches`).

## Model

| member | source | states |
|---|---|---|
| `RateLimit.Limiter.constructor` | internal/ratelimit/ratelimit.go:85-91 | A new limiter has no records and no history. |
| `RateLimit.Limiter.Allow` | internal/ratelimit/ratelimit.go:103-133 | The answer and the new map of records are those of the history of all calls and sweeps; only the called key gets a record, and no record is shared. |
| `RateLimit.Limiter.Find` | internal/ratelimit/ratelimit.go:108-116 | The record that a call meets: the stored one, or a new one when there is none or `resetAt` is past. |
| `RateLimit.Limiter.Spend` | internal/ratelimit/ratelimit.go:118-132 | A full record denies and stays as it is; another one counts the call; no other key's record changes. |
| `RateLimit.Limiter.Cleanup` | internal/ratelimit/ratelimit.go:136-146 | Whatever the order of the walk, exactly the expired records go. |
| `RateLimit.Projection` | internal/ratelimit/ratelimit.go:107-116 | Under any mix of keys and sweeps a key's record is that of its own calls alone, or is missing because it was expired. |
| `RateLimit.KeysAreIndependent` | internal/ratelimit/ratelimit.go:103-133 | Every answer is the one that a counter for that key alone would give. |
| `RateLimit.AnswerIs` | internal/ratelimit/ratelimit.go:103-133 | Every answer of every run, told from the times of the calls alone: a window begins with the first call after the one before is over; its first `Count` calls are admitted, each with one fewer remaining; the others are told the time that is left of it. |
| `RateLimit.RemainingIs` | internal/ratelimit/ratelimit.go:127-132 | What remains after an admitted call is `Count` less the calls of the key admitted since the opener of the window, that call included; it is at least 0 and below `Count`. |
| `RateLimit.SweepsAreInvisible` | internal/ratelimit/ratelimit.go:135-146 | Taking all sweeps out of a history changes no answer. |
| `RateLimit.IntervalBound` | internal/ratelimit/ratelimit.go:103-146 | In every run, with sweeps anywhere, any closed interval of `L` ticks admits at most `Count * (q + 1)` calls of a key if `Window + 1` divides `L`, else `Count * (q + 2) - 1`, where `q = L / (Window + 1)`; none when `Count <= 0`; and all calls when the window is negative and the count is not. |
| `RateLimit.IntervalBoundReached` | internal/ratelimit/ratelimit.go:103-133 | For every limit that has such a maximum, and every key, start and length, there is a run that admits exactly that many. |
| `RateLimit.AnyNumberAdmitted` | internal/ratelimit/ratelimit.go:103-133 | Under a negative window and a positive count any number of calls is admitted at one instant. |
| `RateLimit.BoundsIff` | internal/ratelimit/ratelimit.go:103-146 | A number bounds what a limit admits in every interval of a length, over all runs, exactly when the window is not negative or the count not positive, and the number is at least the maximum. |
| `RateLimit.WindowBound` | internal/ratelimit/ratelimit.go:103-146 | An interval of one window's length (an instant, if the window is negative) admits at most `2 * Count - 1` calls; `Count` for an empty window; none for a count of none; all of them for a negative window. |
| `RateLimit.SlidesIff` | internal/ratelimit/ratelimit.go:71-133 | "At most `Count` in any interval of one window's length" holds over all runs exactly when `Count <= 0`, `Window == 0`, or `Count == 1` and `Window > 0`. |
| `RateLimit.DenialIsAccurate` | internal/ratelimit/ratelimit.go:109-124 | After a denial, as long as nothing later than the announced instant was asked, a call of the same key is admitted exactly when it comes after `now + RetryAfter`; until then all denials announce the same end. |
| `RateLimit.RetryAfterRange` | internal/ratelimit/ratelimit.go:98-124 | In a denial `RetryAfter` is not negative, and not above `Window` when `Count > 0`; which value it has is the next row. |
| `RateLimit.RetryAfterIs` | internal/ratelimit/ratelimit.go:98-124 | For a positive count, `RetryAfter` of a denial is the time to one window's length after the last earlier call of the key that was told it was the first of its window; so it is 0 exactly at that instant, and positive exactly before. |
| `RateLimit.DeniedWithoutWait` | internal/ratelimit/ratelimit.go:98-124 | One call in ten ticks, and calls at 0 and 10: the second is denied with a `RetryAfter` of 0. |
| `LimitSyntax.ParseSpelled` | internal/ratelimit/ratelimit.go:19-69 | Every way to write a limit (spaces, plus sign, leading zeros, named or numeric window) is accepted with its count, and with the window meant exactly when that fits in 64 bits. |
| `LimitSyntax.AcceptedIsSpelled` | internal/ratelimit/ratelimit.go:19-69 | Nothing else is accepted: an accepted text is such a spelling, so its count is positive. |
| `LimitSyntax.PrintedLimit` | internal/ratelimit/ratelimit.go:19-69 | A printed limit of `n` seconds or milliseconds is read back exactly up to 9223372036 s or 9223372036854 ms, for every positive count. |
| `LimitSyntax.ParseWindowSpelled` | internal/ratelimit/ratelimit.go:43-69 | A named or numeric window is always understood; its value is the one meant exactly when it does not wrap. |
| `LimitSyntax.NamedWindows` | internal/ratelimit/ratelimit.go:44-52 | The named windows in nanoseconds: 10^9, 60, 3600 and 86400 times that. |
| `LimitSyntax.DocumentedLimits` | internal/ratelimit/ratelimit.go:18-41 | "60/min", "1000/hour" and "10/s" are read as they say. |
| `LimitSyntax.RefusedBecause` | internal/ratelimit/ratelimit.go:20-28 | A text of spaces is refused as empty, another one without a slash for its format. |
| `LimitSyntax.UnlimitingIff` | internal/ratelimit/ratelimit.go:43-69 | Every well-spelled limit is accepted, and limits nothing exactly when its window is a number whose product with the unit, held and wrapped in 64 bits, is negative. |
| `LimitSyntax.PrintedWindow` | internal/ratelimit/ratelimit.go:43-69 | What a printed limit of any number of seconds or milliseconds is read as: the number is held at 2^63 - 1, and the product wraps. |
| `LimitSyntax.TenBillionSeconds` | internal/ratelimit/ratelimit.go:58-66 | The text of 10000000000 seconds, with any count, is accepted with a negative window. |
| `LimitSyntax.BeyondSixtyFour` | internal/ratelimit/ratelimit.go:58-66 | A number of 2^63 or more, however long, is read as a window of minus one second, or minus one millisecond. |
| `LimitSyntax.AtoiIntText` | internal/auth/auth.go:51-55 | Reading a printed integer back gives the integer, in 64 bits. |
| `Auth.PolicyIsLastUsable` | internal/server/server.go:120-135 | A token is known exactly when an entry with an absent or readable limit names it; the last such entry decides, with its name and with the limit that its text parses to, or none when there is no text. |
| `Auth.BuildTokenMap` | internal/server/server.go:120-135 | The loop builds that map: for the last readable entry of a token the name of the entry, and a limiter of the written limit, or none without one; distinct tokens hold distinct, fresh and unused limiters. |
| `Auth.Gate.Serve` | internal/auth/auth.go:22-66 | The reply is the one that the token map and all earlier requests determine; only the presented token's limiter changes, and every limiter goes on tracking exactly its own token's requests. |
| `Auth.Gate.Charge` | internal/auth/auth.go:48-59 | The limiter of the presented token is asked, its answer is that of this token's earlier requests alone, and no other token's limiter notices. |
| `Auth.Gate.OneRecordEach` | internal/auth/auth.go:50 | A limiter behind the gate never holds more than one record, so memory is bounded without any sweep. |
| `Auth.AdmittedIff` | internal/auth/auth.go:22-66 | A request passes as a token's request exactly when it presents the token of an entry that decides for its token (the last one with an absent or readable limit), and that entry has no limit or the token's own counter, under the limit written in the entry, has room; it passes under that entry's name. It passes as exempt exactly on the health paths. |
| `Auth.RefusalIs` | internal/auth/auth.go:24-46 | Which requests are exempt, lack the header, do not begin with "Bearer ", or present an unknown token. |
| `Auth.UnlimitedReplyIs` | internal/auth/auth.go:41-64 | A token whose entry has no limit is let through under the entry's name. |
| `Auth.LimitedReplyIs` | internal/auth/auth.go:48-62 | The reply to a token with a limit, told from the entry's text and the times of the token's requests: the first `Count` of each window are let through with what remains of it, the others are told the limit, 0, and the whole seconds that cover the rest of the window. |
| `Auth.TokenQuota` | internal/auth/auth.go:41-64 | Over all request runs, what gets through with a token in any interval is within the exact maximum of its limit, whatever else arrives; a limit with a negative window lets all of the token's requests through. |
| `Auth.SpelledQuota` | internal/server/server.go:120-135 | From the written text to the quota: an entry that spells a count and a window lets through at most the maximum of just that limit. |
| `Auth.QuotaOverReloads` | internal/server/server.go:48-70 | Over any number of loads, with requests going on under older ones, a token whose limit stays gets through in any interval at most its limit's maximum times the number of loads. |
| `Auth.QuotaOverReloadsReached` | internal/server/server.go:48-70 | For every number of loads some run lets exactly that many through. |
| `Auth.RejectionsLeaveNoTrace` | internal/auth/auth.go:25-46 | A request that is exempt, refused for its credentials, or without a limit could be left out of the run without any later reply changing. |
| `Auth.RetryAfterHeader` | internal/auth/auth.go:53-57 | The exact seconds, rounded up, never end before the window; a client that waits exactly that long is admitted exactly when the wait was not a whole number of seconds. |
| `Auth.RoundedSeconds` | internal/auth/auth.go:54 | Rounding up a rounded quotient gives those seconds, as long as its error is below a nanosecond and whole seconds are exact. |
| `Auth.OneNameAnswer` | internal/auth/auth.go:50 | A limiter that is only ever called under one name answers as that name's counter alone. |
| `UriEncode.UriEncode` | internal/awssign/awssign.go:219-229 | The loop over the bytes computes the encoding. |
| `UriEncode.DecodeEncode` | internal/awssign/awssign.go:219-234 | Percent-decoding (section 2.1 of RFC 3986) undoes the encoding of every byte string. |
| `UriEncode.EncodeIsPlain` | internal/awssign/awssign.go:219-234 | The encoding consists of unreserved characters and '%'; so it has no '&', '=' or newline. |
| `UriEncode.UnreservedAre` | internal/awssign/awssign.go:231-234 | The letters, the digits and "-_.~" stay as they are. |
| `UriEncode.EscapeIs` | internal/awssign/awssign.go:224-225 | Every other byte becomes a percent sign and its two hexadecimal digits in capitals. |
| `UriEncode.EncodeOrder` | internal/awssign/awssign.go:171-179 | Encoded strings compare bytewise as the strings themselves do in the order that puts all escaped bytes before all unreserved ones. |
| `UriEncode.EncodeKeepsOrderIff` | internal/awssign/awssign.go:171-179 | Encoding keeps the order of two strings exactly when, where they first differ, the smaller does not have an unreserved byte against an escaped one. |
| `UriEncode.SortBeforeIsSortAfterIff` | internal/awssign/awssign.go:167-173 | For the names alone: sorting a set of names before encoding gives the order of encoding before sorting, exactly when no name is inverted with a later one. |
| `QueryRule.RuleInAnyOrder` | internal/awssign/awssign.go:165-180 | The rule's list of pairs, encoded and then sorted by name and value, is sorted, and does not depend on the order in which the query's pairs are taken. |
| `QueryRule.QueryFollowsRuleIff` | internal/awssign/awssign.go:165-180 | The code's query string is the one of AWS Signature Version 4, "Create a canonical request", exactly when encoding turns around no two names that have values and no two values of one name. |
| `QueryRule.SameQueryPairs` | internal/awssign/awssign.go:165-180 | A query that the rule writes as the code writes another has the same pairs, each as often. |
| `PathRule.RulePathIff` | internal/awssign/awssign.go:159-163 | The rule's path, normalised or not and encoded any number of times, is the code's exactly when it has only unreserved characters and slashes, and is normal if the service normalises. |
| `PathRule.NormalisedIff` | internal/awssign/awssign.go:159-163 | Normalising changes every path but those that begin with a slash and have no dot segments and no empty ones but the last; its result is such a path. |
| `UriEncode.EncodesInOrderIff` | internal/awssign/awssign.go:171-234 | The alphabets over which encoding always keeps the order are exactly those without an unreserved byte below an escaped one. |
| `UriEncode.WhereOrderIsKept` | internal/awssign/awssign.go:171-234 | Unreserved bytes together with those below '-' are such an alphabet; "A" and "[" change places. |
| `UriEncode.BuildCanonicalQuery` | internal/awssign/awssign.go:165-180 | The loops give the canonical query, in whatever order the map is walked. |
| `UriEncode.QueryRoundTrip` | internal/awssign/awssign.go:165-180 | Parsing the canonical query recovers exactly the sorted pairs, empty keys and values included; it has no newline. |
| `UriEncode.SortedPairsAreTheQuery` | internal/awssign/awssign.go:165-180 | The sorted pairs hold each value of each key as often as the query does, and nothing else. |
| `Http.LowerThenCanonical` | internal/awssign/awssign.go:152-185 | Lower-casing a header name and putting it into canonical form gives the canonical form of the name. |
| `Http.CanonicalKeyAt` | internal/awssign/awssign.go:186 | The canonical form of a name has capitals at its beginning and after its hyphens, and nowhere else. |
| `Canonical.BuildSignedHeaders` | internal/awssign/awssign.go:149-156 | The list of signed names does not depend on the order of the header map. |
| `Canonical.CoveredOnceIff` | internal/awssign/awssign.go:150-186 | Looking the signed names up in canonical form finds every header exactly once, exactly when all headers are stored in canonical form. |
| `Canonical.BuildCanonicalRequest` | internal/awssign/awssign.go:158-197 | The builder computes the canonical request, independently of map order; its second part is the path itself, or "/" for an empty one. |
| `Canonical.CanonicalRoundTrip` | internal/awssign/awssign.go:158-197 | From the canonical request alone one reads back method, path (as it was, or "/" for the empty one), query pairs, header names, trimmed values and payload hash; the path may even contain newlines. |
| `Canonical.CanonicalInjective` | internal/awssign/awssign.go:158-197 | So two requests with one canonical request agree in all of these; nonempty paths are the same, and an empty one has the canonical request of "/" only. |
| `QueryRule.ValuesCanTurn` | internal/awssign/awssign.go:174-177 | One name with the values "A" and "[" is a query for which the code does not follow the rule. |
| `SpacingRule.RuleHeaderIff` | internal/awssign/awssign.go:185-186 | The code's value of a header is the rule's (each value trimmed and single-spaced, then commas), exactly when no value begins or ends with white space or has two spaces in a row, once the leading space of the first and the trailing space of the last are off. |
| `SpacingRule.SpaceBeforeComma` | internal/awssign/awssign.go:186 | Space after the first of two tidy values stays in the code's value, and not in the rule's. |
| `RequestRule.FollowsRuleIff` | internal/awssign/awssign.go:158-197 | The code's canonical request is the rule's exactly when the path, the order of the query and the spacing within and around each signed value conform. |
| `RequestRule.SameTextIff` | internal/awssign/awssign.go:158-197 | The rule's text of one request is the code's text of another exactly when they agree in method, path, query, signed values and payload hash, as the rule writes them of the one and the code of the other. |
| `Signing.SignRequest` | internal/awssign/awssign.go:92-147 | A body that can be read is put back as it was, byte for byte; the header set is the required headers, with the digest of those bytes, plus the Authorization value over their canonical request; on a read error no header changes. |
| `Signing.PreparedIs` | internal/awssign/awssign.go:109-124 | Before signing there are the date, the digest of the body, the session token if there is one, and a host if there was none; every other header is as it was. |
| `Signing.PreparedIsCanonical` | internal/awssign/awssign.go:109-119 | Setting the required headers keeps the map canonical and neither adds nor removes an Authorization header. |
| `RequestRule.ReceiverAgreesIff` | internal/awssign/awssign.go:121-144 | A receiver that follows the rule makes of the request, with the header set after signing, the text that was signed, exactly when the rest conforms and there was no such header when it was signed, or one that reads as the new one does. |
| `Verifying.OtherKindIff` | internal/awssign/awssign.go:92-147 | With collision-free digests, a request whose earlier Authorization header, if any, was of another kind is accepted as it was signed and sent exactly when it had none and conforms to the rule. |
| `Verifying.AuthorizationRoundTrip` | internal/awssign/awssign.go:129-143 | From the Authorization header a receiver reads back the access key, the date, region and service of the scope, the signed names and the signature. |
| `Verifying.SignedIsAcceptedIff` | internal/awssign/awssign.go:92-147 | A request that arrives as it was signed and sent is accepted by a receiver that follows the rules, whatever SHA-256 and HMAC are, when it conforms to them, its Authorization header aside, and had none before or one that reads as the new one does; with collision-free digests, only then. |
| `Verifying.AcceptedIff` | internal/awssign/awssign.go:92-205 | A message that carries the Authorization value and date of a signed one is accepted when, and with collision-free digests only when, what the rules make of it (method, path, query, signed values, body digest) is what the code made of the signed one. |
| `Verifying.AcceptedIsUnaltered` | internal/awssign/awssign.go:92-205 | An accepted message has the method, the body, the query pairs and the signed header values of the signed one, and its path, if the rules leave the path of the message alone. |
| `CredentialFile.ParseINI` | internal/awssign/awssign.go:278-311 | The loop over the lines computes the scan of the file. |
| `CredentialFile.StepOfLine` | internal/awssign/awssign.go:284-308 | Each kind of written line, with any padding, does to the settings what it says. |
| `CredentialFile.ParseFile` | internal/awssign/awssign.go:278-311 | Parsing a written file gives back the settings that it was written with, values with '=' included. |
| `CredentialFile.UsualFile` | internal/awssign/awssign.go:278-311 | The usual file, a section of the profile with its three keys, is read as the three values. |
| `CredentialFile.EveryFile` | internal/awssign/awssign.go:278-311 | Every content is such a written file, so its items tell what a parse of it gives. |
| `CredentialFile.LastAssignmentWins` | internal/awssign/awssign.go:288-308 | Of all assignments to a key in all sections of the profile the last one decides; without one the setting is empty. |
| `CredentialFile.InsertQuiet` | internal/awssign/awssign.go:285-298 | Blank lines, comments and lines without '=' may stand anywhere. |
| `CredentialFile.InsertForeign` | internal/awssign/awssign.go:288-294 | Whole sections of other profiles may stand anywhere between sections. |
| `ExpandEnv.MatchComplete` | internal/config/config.go:141 | The pattern finds every reference, whatever follows it, with its name and default. |
| `ExpandEnv.StartsRefIff` | internal/config/config.go:141 | The scanner matches at a place exactly when a reference begins there. |
| `ExpandEnv.RematchIsWhole` | internal/config/config.go:147-150 | Matching a matched text again consumes all of it, so the branch for no match is never taken. |
| `ExpandEnv.ExpandRef` | internal/config/config.go:145-158 | A reference is replaced by its value, which is not scanned again, and the rest is expanded on its own. |
| `ExpandEnv.ExpandWritten` | internal/config/config.go:143-158 | A reference written `${NAME}` or `${NAME:-default}` becomes the variable's value if that is set and not empty, else the default, or nothing. |
| `ExpandEnv.MatchedIsWritten` | internal/config/config.go:141 | Whatever the scanner takes for a reference is written so. |
| `ExpandEnv.Decomposition` | internal/config/config.go:145-158 | Every input is a sequence of references and of text in which none begins. |
| `ExpandEnv.ExpandIsOutput` | internal/config/config.go:145-158 | Any such decomposition tells the output: text as it is, each reference as its value. |
| `ExpandEnv.FixedPointIff` | internal/config/config.go:145-158 | The texts that no environment changes are exactly those in which no reference begins. |
| `Configuration.Validate` | internal/config/config.go:195-266 | The verdict names the first thing that is wrong, in the order of the checks, or accepts. |
| `Configuration.VerdictIsUnique` | internal/config/config.go:195-266 | There is only one such verdict, so the configuration is accepted exactly when nothing is wrong. |
| `Configuration.AcceptableIff` | internal/config/config.go:195-266 | What an accepted configuration has, in full: a token, a name and a token in each entry, a name, an upstream and well-formed credentials of a known type in each provider, and only configured providers in groups. |
| `Configuration.AuthFaultIs` | internal/config/config.go:216-254 | Which fault is named for a provider's credentials: an unknown type, or the first setting that its type needs and that is missing. |
| `Configuration.CandidateServedIff` | internal/config/config.go:257-263 | In an accepted configuration every fallback candidate is a configured provider, and the proxy serves it exactly when one of its configurations can be set up. |
| `Configuration.AttemptsReachUpstreams` | internal/fallback/fallback.go:65-97 | In an accepted configuration with slash-free names, each attempt in a group is answered by its candidate's own upstream, asked with the original message and its direct path, or by the proxy's 404, for exactly the candidates none of whose configurations could be set up. |
| `Configuration.GroupAnswers` | internal/fallback/fallback.go:42-98 | From a message to its answer: in an accepted configuration with slash-free names, a provider in a group is answered by the first candidate whose answer to the original message, body and rest of the path included, is neither 429 nor at least 500, else with 502; one that could not be set up counts as a 404. |
| `Pricing.PriceTable.Lookup` | internal/usage/pricing.go:54-77 | In whatever order the map is walked, the answer is the price of the longest nonempty key that prefixes the model. |
| `Pricing.BestIsUnique` | internal/usage/pricing.go:66-71 | There is at most one longest key. |
| `Pricing.AnswerIsUnique` | internal/usage/pricing.go:54-77 | So there is one right answer to a lookup; the exact match is no exception for a nonempty model. |
| `Pricing.SetThenLookup` | internal/usage/pricing.go:54-84 | After `Set(k, p)` a model's price is `p` exactly when `k` is the model, or a nonempty prefix at least as long as every other; else it is what it was. |
| `Pricing.CostIs` | internal/usage/pricing.go:16-27 | A million input tokens cost the input price, a million output tokens the output price; the total is the sum. |
| `Pricing.PriceTable.Calculate` | internal/usage/pricing.go:88-94 | The cost is that of the price that a lookup must give, per million input and output tokens, or an error when there is none. |
| `OAuth.Refresh` | internal/oauth2/oauth2.go:75-121 | A token comes out exactly of a 200 reply with an access token and, for client credentials, no error field; its expiry is counted from receipt, or from before the request for a service account. |
| `OAuth.RefreshedIs` | internal/oauth2/oauth2.go:75-121 | The token and expiry of a successful exchange: the announced seconds after receipt, or after the start of a service account's request. |
| `OAuth.ServedIff` | internal/oauth2/oauth2.go:24-26 | A call is answered from the cache exactly when the cached token has more than 60 s to go. |
| `OAuth.TokenSource.GetToken` | internal/oauth2/oauth2.go:59-73 | A cached token with more than 60 s to go is answered as it is; otherwise the answer is that of the exchange, and is cached if it is a token; after a failed refresh the cached token is unchanged. Cache and answer are those of the run of calls. |
| `OAuth.CachedFrom` | internal/oauth2/oauth2.go:59-73 | A cached token always comes from the latest successful refresh. |
| `OAuth.ServedInTime` | internal/oauth2/oauth2.go:24-26 | A token served from the cache has, by the issuer's own count, more than 50 s left (client credentials, whose exchanges keep to the 10 s timeout) or 60 s (service account), unless its lifetime wrapped around to a long one. |
| `TokenLock.CallsAreInTime` | internal/oauth2/oauth2.go:59-73 | However callers overlap, the lock makes one run of calls of them, none of which begins before the one before it is over; the cached token is that run's, and every caller is answered as its call of the run is. |
| `TokenLock.OneInside` | internal/oauth2/oauth2.go:60-61 | No two callers are between locking and unlocking, so no two exchanges overlap. |
| `TokenLock.LockServesInTime` | internal/oauth2/oauth2.go:59-73 | So what is served from the cache is served in good time, whichever caller asks. |
| `OAuth.SafeLifetimeIff` | internal/oauth2/oauth2.go:116 | Over all runs, tokens of a lifetime are always served in that good time exactly when the lifetime is not below -2^63 nanoseconds or does not wrap around to more than the margin. |
| `OAuth.SpareIsUsedUp` | internal/oauth2/oauth2.go:24-26 | No larger spare time could be promised: for every lifetime above 60 s some run serves the token one tick before it runs out. |
| `OAuth.TwoStretches` | internal/oauth2/oauth2.go:238 | -10000000000 s is a lifetime that the cache gets wrong; -18446744074 s wraps as well, and is not. |
| `OAuth.RefreshSpacing` | internal/oauth2/oauth2.go:59-73 | Each successful refresh but the first comes at least lifetime minus 60 s after the one before. |
| `OAuth.RefreshBound` | internal/oauth2/oauth2.go:59-73 | A run of duration `T` with lifetimes of at least `E > 60 s` makes at most `T / (E - 60 s) + 1` successful refreshes. |
| `OAuth.RefreshBoundReached` | internal/oauth2/oauth2.go:59-73 | For every duration and every lifetime of whole seconds some run makes exactly that many. |
| `Time.WrapNeverStretchesIff` | internal/oauth2/oauth2.go:116 | A wrapped lifetime is at most the one announced, exactly from -2^63 nanoseconds up. |
| `Time.WrapIs` | internal/oauth2/oauth2.go:116 | What a 64-bit product drops are whole multiples of 2^64. |
| `Proxying.ParsePathIs` | internal/proxy/proxy.go:221-239 | A path under the prefix is its provider, without a slash, followed by its upstream path, or by nothing when that is "/". |
| `Proxying.ParsePathOf` | internal/proxy/proxy.go:221-239 | And a path put together from a slash-free name and a rest is taken apart again. |
| `Proxying.Routed` | internal/proxy/proxy.go:221-251 | "/proxy/", a served provider and a rest are answered by its upstream, asked with the rest of the path and all else as it came; unknown providers and other paths with 404. |
| `Proxying.Proxy.ServeHTTP` | internal/proxy/proxy.go:221-251 | The message as it came is logged and answered by its provider's upstream with the parsed path, or by 404; only the path and the body of the request are changed. |
| `Proxying.BuildTable` | internal/proxy/proxy.go:60-131 | The loop over the providers builds the table of those that can be set up. |
| `Proxying.ServedByLastUsable` | internal/proxy/proxy.go:63-130 | A name is served exactly when a configuration of that name can be set up, and by the last of those. |
| `Fallback.RewriteThenParseIff` | internal/fallback/fallback.go:74-81 | For every path under the prefix, the proxy's parser sends the rewritten path to the candidate with exactly the upstream path of the original, exactly when the candidate's name has no slash. |
| `Fallback.BuildGroupMap` | internal/fallback/fallback.go:27-40 | The nested loops build the group map. |
| `Fallback.GroupMapIsLast` | internal/fallback/fallback.go:28-34 | A provider is in the map exactly when some group lists it, and belongs to the last of those. |
| `Fallback.Handler.ServeHTTP` | internal/fallback/fallback.go:42-98 | Outside a group the message goes to the proxy as it is; in a group the answer and the traffic are those of the first final attempt, and the original path is intact although the proxy changes its requests. |
| `Fallback.Handler.TryEach` | internal/fallback/fallback.go:65-97 | Every attempt carries the original method, headers and body; the messages sent are exactly the attempts up to the first answer that is neither 429 nor at least 500, or all of them. |
| `Fallback.TrafficIs` | internal/fallback/fallback.go:42-98 | What a handler sends: outside a group the message as it is; in a group messages with its method, query, headers and whole body, each time; nothing, and a 502, if the body cannot be read. |
| `Fallback.FirstFinalIsUnique` | internal/fallback/fallback.go:65-97 | That determines the answer and the traffic. |
| `Fallback.AttemptIsDirect` | internal/fallback/fallback.go:66-85 | An attempt at a served, slash-free candidate asks its upstream for what the message would have asked of it directly. |
| `Fallback.UnservedCandidateStops` | internal/fallback/fallback.go:83-91 | A candidate that the proxy does not serve ends the loop with 404 when its turn comes. |
| `Reload.Reachable` | internal/server/server.go:47-118 | Every state that any interleaving of reloads, requests, edits and a stop can reach keeps the invariant. |
| `Reload.OneGeneration` | internal/server/server.go:105-108 | All that a request uses is of the one generation whose handler it loaded. |
| `Reload.LoadsGoForward` | internal/server/server.go:67-70 | The generations that requests load never go back, and the live one is always of a valid file. |
| `Reload.OneChecker` | internal/server/server.go:51-57 | Two health checkers never run at once. |
| `Reload.FailureChangesNothing` | internal/server/server.go:74-92 | A reload that fails leaves handler and checker as it found them. |
| `Reload.ReloadTakesEffect` | internal/server/server.go:76-92 | A request that loads the handler after a successful reload gets a generation at least as new as the file was when that reload was called. |
| `Reload.LiveCheckerRunsIff` | internal/server/server.go:51-70 | Before any stop, the live handler's checker runs, exactly but for the time between stopping the old checker and storing the new handler. |
| `Reload.StopServerIff` | internal/server/server.go:114-118 | When the first stop stops the checker that it read, another one is left running exactly when a reload has started one and not recorded it, or has recorded one since the stop read and is not replacing that one in turn. |
| `Reload.CheckerRunsIff` | internal/server/server.go:51-118 | At the end of every run a checker runs exactly when the last event that starts or stops one says so: a start, or a stop of the server that finds a started and unrecorded one; a stop whose checker has been replaced since it read it decides nothing. |
| `Reload.StoppedForGood` | internal/server/server.go:114-118 | After a stop that no reload overlaps or follows, from its read on, no checker ever runs again, whatever else happens. |
| `Reload.OvertakenStop` | internal/server/server.go:114-118 | A run in which a stop reads the checker, a whole reload goes by, and the stop then stops the old checker: the new one runs on. |
| `Reload.LoadRuns` | internal/server/server.go:47-72 | Without anything in between, the steps of a load come to one transition: the old checker stopped, a new one running, everything of the version that was read. |
| `Serving.Server.Load` | internal/server/server.go:47-72 | All parts of the new handler are built from the one configuration, its budgets are full, its checker runs, and the old checker is stopped. |
| `Serving.Server.Reload` | internal/server/server.go:76-92 | A reload succeeds exactly for a file that decodes to an acceptable configuration; otherwise handler and checker are the old ones. |
| `Serving.Server.HandleProxy` | internal/server/server.go:105-108 | A request gets the gate's decision; what the gate refuses reaches no upstream, and what it admits is answered by the fallback handler with the token's name added. |
| `Serving.OnlyWithToken` | internal/auth/auth.go:22-66 | Outside the health paths anything is sent on only for a message with "Bearer " and the token of a deciding entry, under that entry's name and otherwise as it came; the rest is answered with 401 or 429. |
| `Serving.RefusedWith` | internal/auth/auth.go:31-46 | What a client without a usable token is told: 401, and which of the three reasons. |
| `Serving.RetryAfterReadBack` | internal/auth/auth.go:51-57 | A client reads from a refusal's headers the seconds, the limit and what remains as they were meant. |

## Left out

- HTTP transport, `httputil.ReverseProxy`, SSE flushing, TLS, signals and `cmd/yai`: I/O and library behaviour.
- SHA-256, HMAC, RSA, PEM and `internal/oauth2/jwt.go`: arbitrary functions, or one failure case of an exchange.
- YAML and JSON decoding, the usage extractors, `internal/usage/sse.go`, `applyDefaults`, `loadDefaults`: thin or data.
- `internal/health/health.go`: a checker is built, running or stopped; the `/health` endpoint is not modelled.
- `internal/telemetry`: the middleware passes requests through.
- The proxy's director: credentials, extra headers and target host are part of the arbitrary upstream.
- `resolveCredentials` and `CredentialsFromJSON`: the environment and the file system.
- `url.ParseQuery`: a query is the map that it yields. The sort of the standard library is an insertion sort here.
- The mutex of `Limiter` and `PriceTable`: each locked call is one step, in some order.
- `Fallback.Handler.ServeHTTP`: does not consult `RetryConfig`, the strategy or the health checker, because the code does not.
- `Fallback.RewriteThenParseIff`: names with a slash are not refused by `validate`; the lemma says what happens to them.
- `Configuration.AttemptsReachUpstreams`: requires slash-free names; `Fallback.RewriteThenParseIff` says what becomes of others.
- `Serving.Server.HandleProxy`: is sequential, without the mux's cleaning of paths, and without the `X-RateLimit` headers of admitted replies; interleavings are the subject of `Reload`.
- `Serving.Server.Reload`: opening and decoding are a parameter; `expandEnv` is not composed with the YAML decoder.
- `Reload.Reachable`: steps are atomic and seen by all at once; what Go's memory model leaves open for the unlocked read is not modelled.
- `Auth.RetryAfterHeader`: rounds the exact duration up; the code divides into a `float64` first, and `Auth.RoundedSeconds` says under which error that is the same. That a `float64` keeps to that error below 2^24 seconds is not proved.
- `Auth.TokenQuota`: speaks of one token map; `Auth.QuotaOverReloads` speaks of several, each with budgets of its own, as `Serving.Server.Load` says.
- `RateLimit.IntervalBound`: instants are unbounded integers; the saturation of `time.Time` arithmetic is not modelled.
- `OAuth.ServedInTime`: assumes a clock that does not go back, and issue between request and receipt; a token just obtained is handed out unchecked, as the code does.
- `Pricing.PriceTable.Calculate`: computes in exact reals, where the code has `float64`.
- `Canonical.CanonicalRoundTrip`: header names are tokens and values have no newline, as HTTP requires; the path is the decoded one that the code uses. Header values are sequences of characters, so trimming is that of valid UTF-8; a value with stray bytes such as 0xA0 at its end is not modelled.
- `Http.LowerThenCanonical`: lower-casing is modelled for ASCII letters, which is all that header names have.
- `Verifying.SignedIsAcceptedIff`: the access key, date, region and service have no slash or comma, which the header could not separate; names are tokens and values lines, as HTTP requires, the new Authorization value included where it takes an old one's place. Whether a service normalises and how often it encodes the path are parameters; only runs of the character ' ' count as several spaces.
- `Verifying.AcceptedIff`: "collision-free" is injectivity, an idealisation of SHA-256 and HMAC; functions with that property exist (`Verifying.FaithfulDigestsExist`).
- `UriEncode.QueryRoundTrip`: a string is a sequence of bytes, one per character.
- `LimitSyntax.ParseSpelled`: trimming goes by Unicode's white space on characters, not on malformed UTF-8.
