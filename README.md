# rest-tools: argument handler and REST client, modelled in Dafny

This project models two parts of the `rest_tools` Python package.

**`ArgumentHandler`** (`rest_tools/server/arghandler.py`) is an argparse-like front end for the arguments of a tornado request.
- `add_argument` rewrites the options of a registration. `bool` becomes `strtobool`. For a JSON body, every type is wrapped in a safe JSON decode. An argument with no default becomes required, and a non-required one without a default is refused.
- `parse_args` flattens the request into argv strings:
  - from the query string: `--key` followed by each of its values;
  - from a JSON body: `--key` followed by the JSON encoding of its value.
- A JSON body that does not decode, or is not an object, is rejected first.
- After argparse runs, any failure is translated into one of four fixed 400 reasons.

**`RestClient` / `OpenIDRestClient`** (`rest_tools/client/client.py`) form a JSON REST client.
- `open` configures an HTTP session: content type, bearer token, basic auth, client certificate and CA bundle.
- `_prepare` builds the URL and the request keyword arguments.
- `_decode` and `raise_for_status` turn a response into a value or an error.
- `request_seq` sends on a temporary synchronous session and restores the previous one.
- The OpenID variant keeps an access token fresh with a refresh token (`_get_token`) and puts it on the session as the bearer.

Files:
- `values.dfy`: `Option`, bytes, JSON values and Python truthiness, plus the result of a JSON decode.
- `strings.dfy`: the Python string operations the handler uses:
  - `str.replace`, `str.split()`, `str.join` and `startswith`;
  - the line structure a regular expression's `.` cannot cross.
- `error_patterns.dfy`: what `re.search` captures with the three patterns of `arghandler.py`. `.` never matches a newline and a leading `.+` is greedy, so each pattern is modelled line by line: first matching line, last admissible marker.
- `arghandler.dfy`: the handler. `ArgumentHandler` is a class whose registrations the methods update. `parse_args` keeps its two `for` loops, proved against the specification functions `QueryArgv` and `JsonArgv`. The translation of errors is pure.
- `client.dfy`: the client classes, session configuration, request preparation, response handling and the token state machine.

The following enter as function parameters. Their failures are part of the parameter's result type, so the model's contracts hold whatever they do:
- argparse's parse, as `(registrations, argv) -> Parsed(namespace) | Failed(exception, captured stderr)`;
- `json.loads` and tornado's `json_decode`, as a decoded value, a `JSONDecodeError` or another exception;
- tornado's `to_unicode` and UTF-8 decoding, as text or None when they raise;
- `json.dumps`, which cannot fail on a decoded JSON value;
- the HTTP transport, token validation and the token POST;
- the timestamp of an unknown error.

`strtobool` is not a parameter. `add_argument` only hands it to argparse as the `type` of a boolean argument, so the model records it as the tag `StrToBool` and never applies it.

## Model

| member | source | states |
|---|---|---|
| ArgHandler.ParseJsonBodyArguments | rest_tools/server/arghandler.py:42-48 | a decoding error propagates; a decoded object gives its fields; any other decoded value gives no arguments |
| ArgHandler.Make400Error | rest_tools/server/arghandler.py:55-63 | status is 400; a MissingArgumentError gets the reason "`<name>`: (MissingArgumentError) required argument is missing" and an empty log message; any other error gets the reason "`<name>`: <its text>" and no log message |
| ArgHandler.SafeJsonDecode | rest_tools/server/arghandler.py:97-101 | a value that does not decode is returned unchanged as a string; otherwise the decoded value |
| ArgHandler.Normalize | rest_tools/server/arghandler.py:103-119 | refused with "Argument '<name>' marked as not required but no default was provided." exactly when there is no default and required is False; an accepted argument has a default or is required, never keeps `bool`, has its type wrapped in the JSON decode for a JSON body, and after that decode applies the caller's type with `bool` read as `strtobool`; default and other options untouched |
| ArgHandler.ArgumentHandler.constructor | rest_tools/server/arghandler.py:79-84 | a handler for the given source and request, with nothing registered |
| ArgHandler.ArgumentHandler.AddArgument | rest_tools/server/arghandler.py:86-121 | on refusal returns the error and registers nothing; otherwise appends exactly one registration of "--name" with the normalized options; every registration stays enforceable |
| ArgHandler.ArgumentHandler.ParseArgs | rest_tools/server/arghandler.py:177-220 | for a JSON body: a body that is not JSON gives 400 "requests body is not JSON-encoded", another decoding exception propagates, and a non-object gives 400 "JSON-encoded requests body must be a 'dict'", all before argparse runs; for the query: a value `to_unicode` cannot decode makes it raise before argparse runs; otherwise argparse gets exactly the flattened argv and its outcome is concluded. It requires the handler's invariant, which `add_argument` keeps |
| ArgHandler.DecodeAll | rest_tools/server/arghandler.py:204 | one string per raw value, in order, each the value's decoded text |
| ArgHandler.QueryArgv | rest_tools/server/arghandler.py:201-204 | at least one string per argument, and the first one is the first argument's "--key" |
| ArgHandler.JsonArgv | rest_tools/server/arghandler.py:193-199 | exactly two strings per key, and the first one is the first key's "--key" |
| ArgHandler.QueryArgvAppend | rest_tools/server/arghandler.py:201-204 | flattening the query arguments distributes over concatenation |
| ArgHandler.QueryArgvLength | rest_tools/server/arghandler.py:201-204 | the argv has one flag plus one string per value for every argument |
| ArgHandler.QueryArgvGroup | rest_tools/server/arghandler.py:201-204 | argument k's "--key" sits at the offset of the arguments before it, followed directly by all its values in order, so repeated values stay grouped under their key |
| ArgHandler.JsonArgvPairs | rest_tools/server/arghandler.py:193-199 | a JSON body gives exactly two strings per key: "--key" at 2i and the encoded value at 2i+1 |
| ArgHandler.Conclude | rest_tools/server/arghandler.py:212-220 | a namespace exactly when argparse parsed; every failure becomes status 400 carrying the translated reason |
| ArgHandler.OptionTokens | rest_tools/server/arghandler.py:154-158 | keeps exactly the tokens that start with "--": a single token is kept iff it does, and never more tokens than given |
| ArgHandler.OptionTokensAppend | rest_tools/server/arghandler.py:154-158 | the filter distributes over concatenation, so with the one-token case it keeps the kept tokens in their order |
| ArgHandler.StripDashes | rest_tools/server/arghandler.py:155 | every token with each "--" removed, one for one, and no result keeps a "--" |
| ArgHandler.UnrecognizedNames | rest_tools/server/arghandler.py:154-158 | no more names than the list has words, and none of them keeps a "--" |
| ArgHandler.MissingFlagsBecomeNames | rest_tools/server/arghandler.py:143 | replacing " --" by " " turns a ", "-joined list of flags into the list of names |
| ArgHandler.MissingArgumentsReported | rest_tools/server/arghandler.py:142-143 | a missing-arguments clause for flags "--reqd, --bar" is reported as "the following arguments are required: reqd, bar" |
| ArgHandler.PlainQueryNames | rest_tools/server/arghandler.py:154-158 | the option tokens of a query's argv, stripped of dashes, are exactly the argument names in order; no value is taken for a name |
| ArgHandler.UnrecognizedQueryReported | rest_tools/server/arghandler.py:153-159 | when argparse lists leftover query arguments as unrecognized, the reason is "unrecognized arguments: " followed by exactly their names joined by ", ", and none of their values, including values with spaces such as "who knows" |
| ArgHandler.PlainJsonNames | rest_tools/server/arghandler.py:154-158 | the option tokens of a JSON body's argv, stripped of dashes, are exactly its keys in order; no encoded value adds a name |
| ArgHandler.UnrecognizedJsonReported | rest_tools/server/arghandler.py:153-159 | when argparse lists the leftover keys of a JSON body as unrecognized, the reason is "unrecognized arguments: " followed by exactly the keys joined by ", ", and nothing of their encoded values, including a list of objects that encodes with spaces |
| ArgHandler.InvalidValueReported | rest_tools/server/arghandler.py:164-166 | an invalid-value reason starts with "argument " and contains no "--" |
| ArgHandler.InvalidValueGroup | rest_tools/server/arghandler.py:70 | in "argument --<name>: invalid <type> value: '<value>'" the pattern's group 1 is "argument --<name>: invalid", for a non-empty value without ": invalid" of its own, colons included, that argparse renders between single quotes |
| ArgHandler.InvalidTypeReported | rest_tools/server/arghandler.py:161-166 | "argument --foo: invalid int value: 'hank'" is reported as "argument foo: invalid type": the flag loses its dashes, and the type and value are dropped; stated for a non-empty value rendered between single quotes, which may hold ':' as long as it holds no ": invalid" |
| ArgHandler.EmptyValueUnknown | rest_tools/server/arghandler.py:70 | a blank value, "argument --foo: invalid int value: ''", matches no pattern, since `'.+'` needs a character, and the reason is "Unknown argument-handling error (<ts>)" |
| ArgHandler.DoubleQuotedValueUnknown | rest_tools/server/arghandler.py:164-175 | a value argparse renders between double quotes, as "it's", matches no pattern either, and the reason is "Unknown argument-handling error (<ts>)" |
| ArgHandler.InvalidDictReported | tests/unit_server/arghandler_test.py:220-245 | a JSON object value rejected by its type, "argument --dicto: invalid <lambda> value: '{"abc": 123}'", is reported as "argument dicto: invalid type" |
| ArgHandler.RequiredFlagsBecomeNames | rest_tools/server/arghandler.py:141-143 | in a missing-arguments clause only the flags' leading dashes are removed |
| ArgHandler.ReasonStartsWithHead | rest_tools/server/arghandler.py:124-175 | each kind of failure gets a reason that begins with the fixed head of that kind |
| ArgHandler.TranslateError | rest_tools/server/arghandler.py:168-175 | when no pattern applies, whatever the exception, the reason is "Unknown argument-handling error (<timestamp>)" |
| ArgHandler.TranslationClassifies | rest_tools/server/arghandler.py:124-175 | the reason starts with "the following arguments are required:" iff the missing-argument pattern matched, with "unrecognized arguments:" iff only the unrecognized pattern matched, with "argument " iff the invalid-value pattern matched an ArgumentError, and is the unknown-error message iff no pattern applied |
| ErrorPatterns.LastMarker | rest_tools/server/arghandler.py:66-69 | the greedy leading `.+` puts the marker at its last place in the line with text on both sides; none iff there is no such place |
| ErrorPatterns.FirstMarkedLine | rest_tools/server/arghandler.py:66-69 | the line searched is the first one with the marker in such a place; none iff no line has it |
| ErrorPatterns.UnrecognizedList | rest_tools/server/arghandler.py:69 | group 2 of the unrecognized-arguments pattern is non-empty text after "unrecognized arguments: " within one line; there is none iff no line has that marker with text on both sides |
| ErrorPatterns.CaptureAfter | rest_tools/server/arghandler.py:66-69 | the capture is non-empty and within one line; there is none iff no line has the marker with text on both sides |
| ErrorPatterns.RequiredClause | rest_tools/server/arghandler.py:66-68 | the captured group starts with "the following arguments are required: " and has more after it |
| ErrorPatterns.InvalidGroupInLine | rest_tools/server/arghandler.py:70 | the group starts with "argument " and ends with ": invalid", with text between; none iff no "argument " precedes an admissible ": invalid" followed by " ... value: '...'" |
| ErrorPatterns.LastInvalidEnd | rest_tools/server/arghandler.py:70 | group 1 ends at an admissible ": invalid", one followed by " ... value: '...'", and no later one is admissible; none iff no ": invalid" is admissible |
| ErrorPatterns.FirstArgumentWord | rest_tools/server/arghandler.py:70 | group 1 starts at the first "argument " that leaves at least one character before the chosen ": invalid" |
| ErrorPatterns.FirstInvalidLine | rest_tools/server/arghandler.py:70 | the line searched is the first one in which the pattern matches |
| ErrorPatterns.InvalidGroup | rest_tools/server/arghandler.py:165 | the group found in the first matching line starts with "argument " and ends with ": invalid" |
| Strings.ReplaceAll | rest_tools/server/arghandler.py:143 | a replacement no longer than the target never lengthens the text |
| Strings.ReplaceAllWithoutTarget | rest_tools/server/arghandler.py:155 | text in which the target's first character never occurs is unchanged |
| Strings.SplitWhitespace | rest_tools/server/arghandler.py:156 | every token is non-empty and holds no whitespace |
| Strings.Join | rest_tools/server/arghandler.py:159 | with an empty separator the parts are simply concatenated |
| Strings.Lines | rest_tools/server/arghandler.py:66-70 | at least one line, and no line holds a '\n' |
| Strings.SplitWhitespaceKeepsText | rest_tools/server/arghandler.py:156 | `split()` loses and reorders no non-whitespace character |
| Strings.SplitJoinRoundTrip | rest_tools/server/arghandler.py:156 | splitting a space-joined list of whitespace-free tokens gives the tokens back |
| Strings.SplitAroundSpace | rest_tools/server/arghandler.py:156 | splitting two texts joined by a space gives the words of the first and then those of the second |
| Strings.SplitJoin | rest_tools/server/arghandler.py:156 | splitting a space-joined list gives the words of each item in order, whatever whitespace the items contain |
| Strings.StripDashesLeavesNoDoubleDash | rest_tools/server/arghandler.py:155 | removing every "--" leaves no "--" behind |
| Strings.StripDashesKeepsPlainText | rest_tools/server/arghandler.py:155 | a name without "--" is unchanged by the removal |
| Strings.LinesRoundTrip | rest_tools/server/arghandler.py:66-70 | cutting text into lines loses nothing |
| Client.ToStr | rest_tools/client/client.py:21-24 | text is returned unchanged; bytes are UTF-8 decoded |
| Client.Configure | rest_tools/client/client.py:44-57 | headers are Content-Type: application/json, plus Authorization "Bearer <token>" iff the token is truthy, and nothing else; auth is set iff username and password are both given; cert is the (sslcert, sslkey) pair, or sslcert alone, iff sslcert is given; verify is set iff cacert is given; none when the token cannot be decoded |
| Client.RestClient.constructor | rest_tools/client/client.py:27-35 | keeps address, token, timeout, retries and kwargs, and opens an asynchronous, open session configured as above, or with only the content-type header when the token cannot be decoded |
| Client.Session.constructor | rest_tools/client/client.py:40-43 | a new session of the requested kind with the client's retries, nothing configured yet, not closed |
| Client.Session.Close | rest_tools/client/client.py:62-63 | the session is closed and its settings are unchanged |
| Client.AuthOf | rest_tools/client/client.py:49-50 | basic auth is set exactly when both username and password are given, to that pair |
| Client.CertOf | rest_tools/client/client.py:51-55 | the certificate is set exactly when sslcert is given: the (sslcert, sslkey) pair with a key, sslcert alone without |
| Client.VerifyOf | rest_tools/client/client.py:56-57 | verify is set exactly when cacert is given, to it |
| Client.RestClient.ApplyKwargs | rest_tools/client/client.py:49-57 | a fresh session gets exactly that auth, certificate and CA bundle; its headers are left alone |
| Client.RestClient.Open | rest_tools/client/client.py:37-57 | a fresh session of the requested kind whose settings are exactly the configuration; when the token cannot be decoded, only the content-type header is set |
| Client.RestClient.Close | rest_tools/client/client.py:59-63 | the current session, if any, is closed and otherwise unchanged |
| Client.StripLeadingSlash | rest_tools/client/client.py:69-70 | at most one leading '/' is removed |
| Client.PathJoin | rest_tools/client/client.py:71 | an absolute second part replaces the first; otherwise the result starts with the address, ends with the path, with one '/' added only when needed, and is exactly address + "/" + path when the address is non-empty and does not end in '/' |
| Client.RestClient.Prepare | rest_tools/client/client.py:65-80 | timeout is always the client's; the arguments go to params exactly for GET and HEAD and to json otherwise, never both; falsy arguments become {} |
| Client.RestClient.LeadingSlashIgnored | rest_tools/client/client.py:69-71 | "/p" and "p" prepare the same request |
| Client.RestClient.UrlUnderAddress | rest_tools/client/client.py:69-71 | a relative path is joined under the address with exactly one '/' |
| Client.RestClient.DoubleSlashDropsAddress | rest_tools/client/client.py:69-71 | a path starting with "//" drops the address altogether |
| Client.Decode | rest_tools/client/client.py:82-91 | an empty body gives None without decoding; otherwise the decoded value, or the decoding error |
| Client.Complete | rest_tools/client/client.py:109-111 | an HTTP error exactly for status 400 to 599; otherwise the decoded body; a transport error propagates |
| Client.RestClient.Request | rest_tools/client/client.py:93-116 | the prepared request is sent on the current session and its reply completed |
| Client.RestClient.RequestSeq | rest_tools/client/client.py:118-140 | the request goes out on a new session configured as `open` configures it, and the previous session is restored whether it returns or raises |
| Client.RefreshArgs | rest_tools/client/client.py:177-182 | the refresh POST carries exactly grant_type "refresh_token", the refresh token, the client id and the client secret |
| Client.TokenStep | rest_tools/client/client.py:165-196 | a truthy access token that validates is kept with nothing changed; otherwise a truthy refresh token is posted; a failed post clears it; a successful one sets the access token and the reply's refresh token or None; without access_token in the reply, KeyError; "No token available" leaves both tokens falsy |
| Client.NoTokenIsFinal | rest_tools/client/client.py:175-196 | after "No token available" every later call fails the same way without contacting the token service |
| Client.RefreshedTokenKept | rest_tools/client/client.py:166-170 | a token that validates is kept by the next call without another refresh |
| Client.OpenIDRestClient.constructor | rest_tools/client/client.py:155-162 | no access token yet; the given refresh token |
| Client.OpenIDRestClient.Connect | rest_tools/client/client.py:155-163 | the base client with the given address, token, timeout, retries and kwargs and its asynchronous session configured as `open` does; the given client id and secret; when `open` raises on the token, no token request is made and the tokens are as given; otherwise a first token step from no access token |
| Client.OpenIDRestClient.GetToken | rest_tools/client/client.py:165-196 | the two token fields and the outcome follow the token step |
| Client.WithBearer | rest_tools/client/client.py:200-201 | sets Authorization to "Bearer <token>" and nothing else |
| Client.OpenIDRestClient.Prepare | rest_tools/client/client.py:198-202 | runs the token step first; only a truthy token becomes the session's bearer; on success returns what the base client prepares; raises with no request when the step raises |
| Client.OpenIDRestClient.Request | rest_tools/client/client.py:93-116 | the request goes out on the current session carrying the refreshed bearer; that session's settings change only by that bearer, and only when the step ends with a truthy access token; it is not closed or reopened |
| Client.OpenIDRestClient.RequestSeq | rest_tools/client/client.py:118-140 | as written: the request goes out with the settings that `open` derives from the base client's token alone; the previous session is restored, carrying the bearer `_prepare` put on it when the access token is truthy and otherwise unchanged |
| Client.SequentialRequestCarriesNoBearer | rest_tools/client/client.py:132-136 | without a plain token those settings have no Authorization header |
| Client.OpenIDRestClient.RequestSeqAuthorized | rest_tools/client/client.py:118-140 | corrected: the synchronous session also carries the bearer of a truthy access token; the previous session is restored exactly as `_prepare` left it |
| Client.CorrectedSequentialRequestMatchesAsync | rest_tools/client/client.py:118-140 | with the correction, the sequential request uses the settings the asynchronous one does, whatever bearer was set before |

## Findings

| source | as written | input that shows it | evidently intended | confidence | as-written member | corrected member |
|---|---|---|---|---|---|---|
| rest_tools/client/client.py:132-136 | `OpenIDRestClient` inherits `request_seq`. Its `_prepare` puts the bearer on `self.session`, then `open(sync=True)` replaces that session with one whose headers come from `self.token` only | an `OpenIDRestClient` built without `token=` whose access token validates; any `request_seq` call goes out with no Authorization header | the sequential request carries "Bearer <access token>" as `request` does | not executed; high that the header is missing, medium that it was not meant | Client.OpenIDRestClient.RequestSeq | Client.OpenIDRestClient.RequestSeqAuthorized |

## Left out

- argparse itself: the parse, `-h`, `nargs`, `choices` and its messages are not modelled. It is a parameter returning a namespace or a failure with its captured stderr. `add_argument` records the registration argparse would receive.
- `json.loads`, `json.dumps`, `json_decode`, `to_unicode` and UTF-8 decoding are parameters, because their tables live outside these files. `strtobool` is only named, because argparse, which applies it, is a parameter too.
- Logging, `print`, `traceback` and the stderr redirect are left out. They are side channels only.
- `time.time()` is a parameter `ts`, already rendered as text.
- The `ValueError` for an argument source outside the enum cannot arise: the enum has two members.
- Python values in a JSON body are JSON values. Duplicate keys in a JSON object are assumed already merged, as `json.loads` does.
- `type=` given explicitly as None is not modelled.
- A `required=` other than a bool is read as a bool.
- ArgHandler.UnrecognizedQueryReported: stated for query names without whitespace or "--", and for values none of whose whitespace-separated words starts with "--". A value that itself looks like a flag would be reported as one more name.
- ArgHandler.UnrecognizedJsonReported: stated for keys without whitespace or "--", and for encoded values none of whose whitespace-separated words starts with "--". `json.dumps` can produce such a word, as for the string "a --b", which encodes to `"a --b"` and splits into `"a` and `--b"`; argparse then reports `--b"` with the leftover keys, and the reason names it as one more argument, as for the query source.
- ArgHandler.InvalidTypeReported: stated for a flag name without ':' or "--", a type name without ':', and a non-empty value that argparse renders between single quotes and that holds no ": invalid" of its own. Values such as `{"abc": 123}` or "12:30" are covered. A value that contains ": invalid" is not covered, though the pattern would usually still pick the flag's ": invalid". A blank value, as `?foo=` gives, and a value holding a single quote, which `%r` puts between double quotes, match no pattern: the reason is then "Unknown argument-handling error (<ts>)", as ArgHandler.EmptyValueUnknown and ArgHandler.DoubleQuotedValueUnknown state, not "argument foo: invalid type".
- ArgHandler.DoubleQuotedValueUnknown: the double-quoted text is written without the escapes `%r` adds for backslashes and control characters, and the value may not spell out " value: '" itself.
- The HTTP transport, retries, `asyncio.wrap_future`, `requests.post`, OpenID discovery and `validate` are parameters. Each `request` is one step, without concurrency.
- The DELETE/404 branch of `request` only changes logging.
- Client.RestClient.constructor: when the token cannot be decoded, `__init__` raises. The constructor completes instead and leaves the session as `open` left it. Client.OpenIDRestClient.Connect reports that case as a None outcome, with no token request.
- A new `requests` session starts with library default headers, which `open` replaces wholesale. The model starts it with none.
- A token-endpoint reply is modelled as a string map. A reply that is not a JSON object, or non-string token values, is not modelled.
- `os.path.join` is the POSIX join. The Windows variant is not modelled.
