/** `rest_tools/server/arghandler.py`: an argparse-like handler for the
    arguments of a REST request, read either from the query string or from a
    JSON-encoded body.

    argparse itself, `json.loads`, `json.dumps`, tornado's `to_unicode` and
    `json_decode` are not modelled; each enters as a function parameter. */
module ArgHandler {
  import opened Values
  import opened Strings
  import opened ErrorPatterns

  datatype ArgumentSource = QueryArguments | JsonBodyArguments

  /** The part of tornado's request object the handler reads: the query
      arguments (name to raw values, in order) and the raw body. */
  datatype Request = Request(arguments: seq<(string, seq<Bytes>)>, body: Bytes)

  /** tornado's `HTTPError`: status code, reason, log message. */
  datatype HttpError = HttpError(status: nat, reason: string, logMessage: Option<string>)

  // ---------------------------------------------------------------------------
  // _parse_json_body_arguments

  datatype BodyArguments = BodyFields(fields: seq<(string, Json)>) | BodyDecodeRaised

  /** The body's JSON object, or no arguments at all when the body decodes to
      anything but an object; a decoding exception propagates. */
  function ParseJsonBodyArguments(body: Bytes, jsonDecode: Bytes -> Loaded): (r: BodyArguments)
    ensures r.BodyDecodeRaised? <==> !jsonDecode(body).Loaded?
    ensures r.BodyFields? && r.fields != [] ==> jsonDecode(body) == Loaded(JObject(r.fields))
    ensures jsonDecode(body).Loaded? && jsonDecode(body).value.JObject? ==> r == BodyFields(jsonDecode(body).value.fields)
    ensures jsonDecode(body).Loaded? && !jsonDecode(body).value.JObject? ==> r == BodyFields([])
  {
    match jsonDecode(body)
    case Loaded(v) => if v.JObject? then BodyFields(v.fields) else BodyFields([])
    case _ => BodyDecodeRaised
  }

  // ---------------------------------------------------------------------------
  // _make_400_error

  /** The exception `_make_400_error` is given: tornado's MissingArgumentError,
      or any other exception, represented by its `str()`. */
  datatype ArgumentFailure = MissingArgumentError | OtherFailure(text: string)

  function Make400Error(argName: string, error: ArgumentFailure): (e: HttpError)
    ensures e.status == 400
    ensures StartsWith(e.reason, "`" + argName + "`: ")
    ensures error.MissingArgumentError? <==> e.logMessage == Some("")
    ensures error.OtherFailure? ==> EndsWith(e.reason, error.text)
    ensures error.MissingArgumentError? ==>
      e.reason == "`" + argName + "`: " + "(MissingArgumentError) required argument is missing"
    ensures error.OtherFailure? ==> e.reason == "`" + argName + "`: " + error.text && e.logMessage.None?
  {
    var lead := "`" + argName + "`: ";
    match error
    case MissingArgumentError =>
      HttpError(400, lead + "(MissingArgumentError) required argument is missing", Some(""))
    case OtherFailure(text) =>
      HttpError(400, lead + text, None)
  }

  // ---------------------------------------------------------------------------
  // add_argument

  /** A value passed as `type=`: Python's `bool`, another callable named by the
      caller, or one of the converters the handler installs itself. */
  datatype Callable =
    | BoolType
    | Other(name: string)
    | StrToBool
    | SafeJsonLoads
    | AfterJsonLoads(inner: Callable)   // lambda x: inner(safe_json_loads(x))

  /** The keyword arguments of `add_argument` that the handler inspects; the
      rest (`nargs`, `choices`, ...) pass through untouched. An absent key is None. */
  datatype Options = Options(
    typ: Option<Callable>,
    defaultValue: Option<Json>,
    required: Option<bool>,
    others: seq<(string, Json)>)

  /** One call of argparse's `add_argument`, as the handler makes it. */
  datatype Registration = Registration(flag: string, positional: seq<Json>, options: Options)

  datatype Normalized = Accepted(options: Options) | ConfigError(message: string)

  /** `safe_json_loads`: the decoded value, or the string itself when it is not JSON. */
  function SafeJsonDecode(val: string, loads: string -> Loaded): (r: Json)
    ensures !loads(val).Loaded? ==> r == JStr(val)
    ensures loads(val).Loaded? ==> r == loads(val).value
  {
    match loads(val)
    case Loaded(v) => v
    case _ => JStr(val)
  }

  /** A registration argparse can enforce: the argument has a default or is required. */
  predicate Enforceable(o: Options)
  {
    o.defaultValue.Some? || o.required == Some(true)
  }

  /** The type the handler hands to argparse: never Python's bare `bool`, and,
      for a JSON body, always a JSON decode first. */
  predicate InstalledType(source: ArgumentSource, t: Option<Callable>)
  {
    && t != Some(BoolType)
    && (source == JsonBodyArguments ==>
          t.Some? && (t.value == SafeJsonLoads || (t.value.AfterJsonLoads? && t.value.inner != BoolType)))
  }

  /** The type the caller meant, with `bool` read as `strtobool`. */
  function MeantType(t: Option<Callable>): Option<Callable>
  {
    if t == Some(BoolType) then Some(StrToBool) else t
  }

  /** The caller's type as it applies after the handler's JSON decode, if any. */
  function TypeAfterDecode(source: ArgumentSource, t: Option<Callable>): Option<Callable>
  {
    if source == JsonBodyArguments then
      match t
      case Some(AfterJsonLoads(inner)) => Some(inner)
      case _ => None
    else t
  }

  /** The options the handler passes to argparse for one `add_argument` call,
      or the ValueError it raises instead. */
  function Normalize(source: ArgumentSource, name: string, opts: Options): (r: Normalized)
    ensures r.ConfigError? <==> opts.defaultValue.None? && opts.required == Some(false)
    ensures r.ConfigError? ==> r.message == "Argument '" + name + "' marked as not required but no default was provided."
    ensures r.Accepted? ==> Enforceable(r.options) && InstalledType(source, r.options.typ)
    ensures r.Accepted? ==> TypeAfterDecode(source, r.options.typ) == MeantType(opts.typ)
    ensures r.Accepted? ==> r.options.defaultValue == opts.defaultValue && r.options.others == opts.others
    ensures r.Accepted? && (opts.defaultValue.Some? || opts.required.Some?) ==> r.options.required == opts.required
  {
    var meant := MeantType(opts.typ);
    var typ :=
      if source == JsonBodyArguments then
        (if meant.Some? then Some(AfterJsonLoads(meant.value)) else Some(SafeJsonLoads))
      else meant;
    if opts.defaultValue.None? && opts.required == Some(false) then
      ConfigError("Argument '" + name + "' marked as not required but no default was provided.")
    else if opts.defaultValue.Some? then
      Accepted(opts.(typ := typ))
    else
      match opts.required
      case None => Accepted(opts.(typ := typ, required := Some(true)))
      case Some(b) =>
        assert b;
        Accepted(opts.(typ := typ))
  }

  // ---------------------------------------------------------------------------
  // parse_args: the argv-style strings

  /** The text `to_unicode` gives for one raw value, or the empty text when it
      raises. `parse_args` raises in that case, so the empty text never
      reaches argparse (see `QueryDecodes`). */
  function DecodedText(toUnicode: Bytes -> Option<string>, b: Bytes): string
  {
    if toUnicode(b).Some? then toUnicode(b).value else ""
  }

  /** Every raw query value is text `to_unicode` can decode. */
  predicate QueryDecodes(arguments: seq<(string, seq<Bytes>)>, toUnicode: Bytes -> Option<string>)
  {
    forall k, v :: 0 <= k < |arguments| && v in arguments[k].1 ==> toUnicode(v).Some?
  }

  /** `to_unicode(v) for v in vlist`. */
  function DecodeAll(vlist: seq<Bytes>, toUnicode: Bytes -> Option<string>): (r: seq<string>)
    ensures |r| == |vlist|
    ensures forall j :: 0 <= j < |vlist| && toUnicode(vlist[j]).Some? ==> r[j] == toUnicode(vlist[j]).value
  {
    seq(|vlist|, j requires 0 <= j < |vlist| => DecodedText(toUnicode, vlist[j]))
  }

  /** The query source flattened: "--key", then each of its values, key by key. */
  function QueryArgv(arguments: seq<(string, seq<Bytes>)>, toUnicode: Bytes -> Option<string>): (r: seq<string>)
    ensures |r| >= |arguments|
    ensures arguments != [] ==> r[0] == "--" + arguments[0].0
  {
    if arguments == [] then []
    else
      var last := arguments[|arguments| - 1];
      QueryArgv(arguments[..|arguments| - 1], toUnicode) + ["--" + last.0] + DecodeAll(last.1, toUnicode)
  }

  /** The JSON source flattened: "--key", then the JSON encoding of its value. */
  function JsonArgv(fields: seq<(string, Json)>, dumps: Json -> string): (r: seq<string>)
    ensures |r| == 2 * |fields|
    ensures fields != [] ==> r[0] == "--" + fields[0].0
  {
    if fields == [] then []
    else
      var last := fields[|fields| - 1];
      JsonArgv(fields[..|fields| - 1], dumps) + ["--" + last.0, dumps(last.1)]
  }

  // ---------------------------------------------------------------------------
  // _translate_error

  /** The exception argparse ends with: SystemExit (after writing to stderr),
      ArgumentError (with its `str()`), or any other exception. */
  datatype ParseFailure = SystemExit | ArgumentError(text: string) | OtherException(text: string)

  const RequiredHead := "the following arguments are required:"
  const UnrecognizedHead := "unrecognized arguments:"
  const UnknownHead := "Unknown argument-handling error ("

  function UnknownMessage(ts: string): string
  {
    UnknownHead + ts + ")"
  }

  /** The tokens that start with "--", in order. */
  function OptionTokens(tokens: seq<string>): (r: seq<string>)
    ensures forall t :: t in r ==> t in tokens && StartsWith(t, "--")
    ensures forall t :: t in tokens && StartsWith(t, "--") ==> t in r
    ensures |tokens| == 1 ==> r == (if StartsWith(tokens[0], "--") then tokens else [])
    ensures |r| <= |tokens|
  {
    if tokens == [] then []
    else (if StartsWith(tokens[0], "--") then [tokens[0]] else []) + OptionTokens(tokens[1..])
  }

  /** `k.replace("--", "")` for every token. */
  function StripDashes(tokens: seq<string>): (r: seq<string>)
    ensures |r| == |tokens|
    ensures forall j :: 0 <= j < |tokens| ==> r[j] == ReplaceAll(tokens[j], "--", "")
    ensures forall j :: 0 <= j < |tokens| ==> NoDoubleDash(r[j])
  {
    assert forall j :: 0 <= j < |tokens| ==> NoDoubleDash(ReplaceAll(tokens[j], "--", "")) by {
      forall j | 0 <= j < |tokens|
        ensures NoDoubleDash(ReplaceAll(tokens[j], "--", ""))
      {
        StripDashesLeavesNoDoubleDash(tokens[j]);
      }
    }
    seq(|tokens|, j requires 0 <= j < |tokens| => ReplaceAll(tokens[j], "--", ""))
  }

  /** The names an "unrecognized arguments" message reports for argparse's list. */
  function UnrecognizedNames(list: string): (r: seq<string>)
    ensures |r| <= |SplitWhitespace(list)|
    ensures forall j :: 0 <= j < |r| ==> NoDoubleDash(r[j])
  {
    StripDashes(OptionTokens(SplitWhitespace(list)))
  }

  /** Whether one of the three patterns applies to the failure. */
  predicate Recognized(exc: ParseFailure, stderr: string)
  {
    match exc
    case SystemExit => RequiredClause(stderr).Some? || UnrecognizedList(stderr).Some?
    case ArgumentError(text) => InvalidGroup(text).Some?
    case OtherException(_) => false
  }

  /** The reason of the 400 response for a failed parse. `ts` is the decimal
      rendering of `time.time()` at the moment of the failure. */
  function TranslateError(exc: ParseFailure, stderr: string, ts: string): (r: string)
    ensures !Recognized(exc, stderr) ==> r == UnknownMessage(ts)
  {
    match exc
    case SystemExit =>
      if RequiredClause(stderr).Some? then
        ReplaceAll(RequiredClause(stderr).value, " --", " ")
      else if UnrecognizedList(stderr).Some? then
        UnrecognizedHead + " " + Join(UnrecognizedNames(UnrecognizedList(stderr).value), ", ")
      else UnknownMessage(ts)
    case ArgumentError(text) =>
      if InvalidGroup(text).Some? then ReplaceAll(InvalidGroup(text).value, "--", "") + " type"
      else UnknownMessage(ts)
    case OtherException(_) => UnknownMessage(ts)
  }

  lemma TranslateRequired(stderr: string, ts: string)
    requires RequiredClause(stderr).Some?
    ensures TranslateError(SystemExit, stderr, ts) == ReplaceAll(RequiredClause(stderr).value, " --", " ")
  {
  }

  lemma TranslateUnrecognized(stderr: string, ts: string)
    requires RequiredClause(stderr).None? && UnrecognizedList(stderr).Some?
    ensures TranslateError(SystemExit, stderr, ts) ==
            UnrecognizedHead + " " + Join(UnrecognizedNames(UnrecognizedList(stderr).value), ", ")
  {
  }

  lemma TranslateInvalid(text: string, stderr: string, ts: string)
    requires InvalidGroup(text).Some?
    ensures TranslateError(ArgumentError(text), stderr, ts) == ReplaceAll(InvalidGroup(text).value, "--", "") + " type"
  {
  }

  // ---------------------------------------------------------------------------
  // Properties of the flattening

  /** Flattening distributes over concatenation of the query arguments. */
  lemma {:induction false} QueryArgvAppend(a: seq<(string, seq<Bytes>)>, b: seq<(string, seq<Bytes>)>, toUnicode: Bytes -> Option<string>)
    ensures QueryArgv(a + b, toUnicode) == QueryArgv(a, toUnicode) + QueryArgv(b, toUnicode)
  {
    if b == [] {
      assert a + b == a;
    } else {
      var last := b[|b| - 1];
      assert (a + b)[..|a + b| - 1] == a + b[..|b| - 1];
      assert (a + b)[|a + b| - 1] == last;
      QueryArgvAppend(a, b[..|b| - 1], toUnicode);
    }
  }

  /** The number of argv strings a query source gives: one flag and one
      string per value, for every argument. */
  function ArgvCount(arguments: seq<(string, seq<Bytes>)>): nat
  {
    if arguments == [] then 0 else 1 + |arguments[0].1| + ArgvCount(arguments[1..])
  }

  lemma {:induction false} QueryArgvLength(arguments: seq<(string, seq<Bytes>)>, toUnicode: Bytes -> Option<string>)
    ensures |QueryArgv(arguments, toUnicode)| == ArgvCount(arguments)
  {
    if arguments != [] {
      var head := [arguments[0]];
      assert arguments == head + arguments[1..];
      QueryArgvAppend(head, arguments[1..], toUnicode);
      QueryArgvSingle(arguments[0].0, arguments[0].1, toUnicode);
      QueryArgvLength(arguments[1..], toUnicode);
    }
  }

  /** The argv of one query argument: its flag, then its decoded values. */
  lemma QueryArgvSingle(key: string, vlist: seq<Bytes>, toUnicode: Bytes -> Option<string>)
    ensures QueryArgv([(key, vlist)], toUnicode) == ["--" + key] + DecodeAll(vlist, toUnicode)
  {
    assert [(key, vlist)][..0] == [];
  }

  /** Argument `k` lands at a known offset of the argv: "--key" first, its
      values right after, nothing of another argument in between. */
  lemma QueryArgvGroup(arguments: seq<(string, seq<Bytes>)>, k: nat, toUnicode: Bytes -> Option<string>)
    requires k < |arguments|
    ensures var argv := QueryArgv(arguments, toUnicode);
            var at := |QueryArgv(arguments[..k], toUnicode)|;
            var n := |arguments[k].1|;
            at + 1 + n <= |argv|
            && argv[at] == "--" + arguments[k].0
            && argv[at + 1..at + 1 + n] == DecodeAll(arguments[k].1, toUnicode)
  {
    var (key, vlist) := arguments[k];
    var after := arguments[k + 1..];
    assert arguments == arguments[..k] + ([(key, vlist)] + after);
    QueryArgvAppend(arguments[..k], [(key, vlist)] + after, toUnicode);
    QueryArgvAppend([(key, vlist)], after, toUnicode);
    QueryArgvSingle(key, vlist, toUnicode);
    GroupInside(QueryArgv(arguments[..k], toUnicode), ["--" + key], DecodeAll(vlist, toUnicode), QueryArgv(after, toUnicode));
  }

  /** Where a middle part of a concatenation sits. */
  lemma GroupInside(before: seq<string>, flag: seq<string>, values: seq<string>, after: seq<string>)
    requires |flag| == 1
    ensures var argv := before + ((flag + values) + after);
            && |before| + 1 + |values| <= |argv|
            && argv[|before|] == flag[0]
            && argv[|before| + 1..|before| + 1 + |values|] == values
  {
    var argv := before + ((flag + values) + after);
    assert argv[|before|] == flag[0];
    assert argv[|before| + 1..|before| + 1 + |values|] == values;
  }

  /** The JSON source gives exactly two argv strings per key: "--key", then
      the value's JSON encoding. */
  lemma {:induction false} JsonArgvPairs(fields: seq<(string, Json)>, dumps: Json -> string)
    ensures |JsonArgv(fields, dumps)| == 2 * |fields|
    ensures forall i :: 0 <= i < |fields| ==>
      JsonArgv(fields, dumps)[2 * i] == "--" + fields[i].0 && JsonArgv(fields, dumps)[2 * i + 1] == dumps(fields[i].1)
  {
    if fields != [] {
      var init := fields[..|fields| - 1];
      JsonArgvPairs(init, dumps);
      forall i | 0 <= i < |fields| - 1
        ensures fields[i] == init[i]
      {
      }
    }
  }

  // ---------------------------------------------------------------------------
  // Properties of the translation

  /** The option flags of some argument names: "--name" each. */
  function Flags(names: seq<string>): (r: seq<string>)
    ensures |r| == |names| && forall j :: 0 <= j < |names| ==> r[j] == "--" + names[j]
  {
    seq(|names|, j requires 0 <= j < |names| => "--" + names[j])
  }

  /** Replacing " --" by " " turns the list of missing flags into the list of
      missing names. */
  lemma {:induction false} MissingFlagsBecomeNames(names: seq<string>)
    requires forall n :: n in names ==> ' ' !in n
    ensures ReplaceAll(" " + Join(Flags(names), ", "), " --", " ") == " " + Join(names, ", ")
  {
    if names == [] {
      assert " " + Join(Flags(names), ", ") == [' '] + "";
      DifferenceRulesOutPrefix(" ", " --", 1);
    } else {
      var n0 := names[0];
      assert n0 in names;
      var flags := Flags(names);
      var rest := if |names| == 1 then "" else ", " + Join(flags[1..], ", ");
      assert Join(flags, ", ") == ("--" + n0) + rest;
      assert " " + Join(flags, ", ") == " --" + (n0 + rest);
      ReplaceAllAtTarget(n0 + rest, " --", " ");
      ReplaceAllKeepsPrefix(n0, rest, " --", " ");
      if |names| > 1 {
        assert flags[1..] == Flags(names[1..]);
        var inner := " " + Join(flags[1..], ", ");
        assert rest == "," + inner;
        ReplaceAllKeepsPrefix(",", inner, " --", " ");
        assert forall n :: n in names[1..] ==> n in names;
        MissingFlagsBecomeNames(names[1..]);
        calc {
          ReplaceAll(" " + Join(flags, ", "), " --", " ");
          " " + (n0 + ("," + ReplaceAll(inner, " --", " ")));
          " " + (n0 + ("," + (" " + Join(names[1..], ", "))));
          { var j := Join(names[1..], ", ");
            CommaThenSpace(j);
            JoinCons(names, ", "); }
          " " + Join(names, ", ");
        }
      } else {
        assert n0 + rest == n0;
        assert Join(names, ", ") == n0;
      }
    }
  }

  /** When argparse reports flags as missing, the 400 reason names the
      arguments without their dashes, as "the following arguments are
      required: reqd, bar". */
  lemma MissingArgumentsReported(stderr: string, names: seq<string>, ts: string)
    requires RequiredClause(stderr) == Some(RequiredLead + Join(Flags(names), ", "))
    requires forall n :: n in names ==> ' ' !in n
    ensures TranslateError(SystemExit, stderr, ts) == RequiredLead + Join(names, ", ")
  {
    TranslateRequired(stderr, ts);
    RequiredFlagsBecomeNames(names);
  }

  /** The missing-argument clause with its flags turned into names. */
  lemma RequiredFlagsBecomeNames(names: seq<string>)
    requires forall n :: n in names ==> ' ' !in n
    ensures ReplaceAll(RequiredLead + Join(Flags(names), ", "), " --", " ") == RequiredLead + Join(names, ", ")
  {
    var flags := Join(Flags(names), ", ");
    RequiredLeadSplits(flags);
    ReplaceAllKeepsDashFreePrefix(RequiredHead, " " + flags, " --", " ");
    MissingFlagsBecomeNames(names);
    RequiredLeadSplits(Join(names, ", "));
  }

  /** The clause's lead is its head followed by a space. */
  lemma RequiredLeadSplits(j: string)
    ensures RequiredLead + j == RequiredHead + (" " + j)
    ensures '-' !in RequiredHead && RequiredHead[|RequiredHead| - 1] != ' '
  {
    assert forall i :: 0 <= i < |RequiredLead| + |j| ==> (RequiredLead + j)[i] == (RequiredHead + (" " + j))[i];
  }

  /** The leading "--" of the option tokens appended to `a` adds to the list. */
  lemma {:induction false} OptionTokensAppend(a: seq<string>, b: seq<string>)
    ensures OptionTokens(a + b) == OptionTokens(a) + OptionTokens(b)
  {
    if a == [] {
      assert a + b == b;
    } else {
      assert (a + b)[0] == a[0];
      assert (a + b)[1..] == a[1..] + b;
      OptionTokensAppend(a[1..], b);
    }
  }

  lemma {:induction false} NoOptionTokens(tokens: seq<string>)
    requires forall t :: t in tokens ==> !StartsWith(t, "--")
    ensures OptionTokens(tokens) == []
  {
    if tokens != [] {
      assert tokens[0] in tokens;
      assert forall t :: t in tokens[1..] ==> t in tokens;
      NoOptionTokens(tokens[1..]);
    }
  }

  /** A query value none of whose whitespace-separated tokens looks like an
      option ("who knows" is one; "--x" is not). */
  predicate PlainValue(v: string)
  {
    forall t :: t in SplitWhitespace(v) ==> !StartsWith(t, "--")
  }

  /** A query argument name that survives the "--" stripping unchanged. */
  predicate PlainName(key: string)
  {
    HasNoSpace(key) && NoDoubleDash(key)
  }

  predicate PlainQuery(arguments: seq<(string, seq<Bytes>)>, toUnicode: Bytes -> Option<string>)
  {
    forall k :: 0 <= k < |arguments| ==>
      PlainName(arguments[k].0) && forall v :: v in arguments[k].1 ==> PlainValue(DecodedText(toUnicode, v))
  }

  /** The argument names, in order. */
  function Names<V>(arguments: seq<(string, V)>): (r: seq<string>)
    ensures |r| == |arguments| && forall k :: 0 <= k < |arguments| ==> r[k] == arguments[k].0
  {
    seq(|arguments|, k requires 0 <= k < |arguments| => arguments[k].0)
  }

  lemma NamesOfInit<V>(arguments: seq<(string, V)>)
    requires arguments != []
    ensures Names(arguments) == Names(arguments[..|arguments| - 1]) + [arguments[|arguments| - 1].0]
  {
    var init := arguments[..|arguments| - 1];
    var rhs := Names(init) + [arguments[|arguments| - 1].0];
    forall k | 0 <= k < |arguments|
      ensures Names(arguments)[k] == rhs[k]
    {
      if k < |init| {
        assert init[k] == arguments[k];
      }
    }
  }

  lemma PlainQueryInit(arguments: seq<(string, seq<Bytes>)>, toUnicode: Bytes -> Option<string>)
    requires arguments != [] && PlainQuery(arguments, toUnicode)
    ensures PlainQuery(arguments[..|arguments| - 1], toUnicode)
    ensures PlainName(arguments[|arguments| - 1].0)
    ensures forall t :: t in DecodeAll(arguments[|arguments| - 1].1, toUnicode) ==> PlainValue(t)
  {
    var init := arguments[..|arguments| - 1];
    forall k | 0 <= k < |init|
      ensures init[k] == arguments[k]
    {
    }
  }

  /** The flag of a whitespace-free name is one option token, and stripping
      its dashes is stripping the name's. */
  lemma FlagIsToken(key: string)
    requires HasNoSpace(key)
    ensures "--" + key != "" && HasNoSpace("--" + key) && StartsWith("--" + key, "--")
    ensures ReplaceAll("--" + key, "--", "") == ReplaceAll(key, "--", "")
  {
    var flag := "--" + key;
    forall i | 0 <= i < |flag|
      ensures !IsSpace(flag[i])
    {
      if i >= 2 {
        assert flag[i] == key[i - 2];
      }
    }
    ReplaceAllAtTarget(key, "--", "");
  }

  lemma StripDashesAppend(a: seq<string>, b: seq<string>)
    ensures StripDashes(a + b) == StripDashes(a) + StripDashes(b)
  {
    var rhs := StripDashes(a) + StripDashes(b);
    forall j | 0 <= j < |a + b|
      ensures StripDashes(a + b)[j] == rhs[j]
    {
      if j < |a| {
        assert (a + b)[j] == a[j];
      } else {
        assert (a + b)[j] == b[j - |a|];
      }
    }
  }

  /** Splitting plain values never yields an option token. */
  lemma {:induction false} NoOptionTokensInValues(values: seq<string>)
    requires forall t :: t in values ==> PlainValue(t)
    ensures OptionTokens(SplitAll(values)) == []
  {
    if values != [] {
      assert values[0] in values;
      NoOptionTokens(SplitWhitespace(values[0]));
      assert forall t :: t in values[1..] ==> t in values;
      NoOptionTokensInValues(values[1..]);
      OptionTokensAppend(SplitWhitespace(values[0]), SplitAll(values[1..]));
    }
  }

  /** Appending a plain name's flag and plain values to an argv adds exactly
      that name to the stripped option tokens. */
  lemma ArgvTailNames(before: seq<string>, key: string, values: seq<string>)
    requires PlainName(key)
    requires forall t :: t in values ==> PlainValue(t)
    ensures StripDashes(OptionTokens(SplitAll(before + ["--" + key] + values))) ==
            StripDashes(OptionTokens(SplitAll(before))) + [key]
  {
    var flag := "--" + key;
    ArgvTailTokens(before, key, values);
    FlagIsToken(key);
    StripDashesAppend(OptionTokens(SplitAll(before)), [flag]);
    StripDashesKeepsPlainText(key);
  }

  /** The option tokens gain exactly the flag. */
  lemma ArgvTailTokens(before: seq<string>, key: string, values: seq<string>)
    requires HasNoSpace(key)
    requires forall t :: t in values ==> PlainValue(t)
    ensures OptionTokens(SplitAll(before + ["--" + key] + values)) == OptionTokens(SplitAll(before)) + ["--" + key]
  {
    var flag := "--" + key;
    FlagIsToken(key);
    SplitJoinRoundTrip([flag]);
    assert SplitAll([flag]) == SplitWhitespace(flag) + SplitAll([]);
    SplitAllAppend(before + [flag], values);
    SplitAllAppend(before, [flag]);
    var tokens := SplitAll(before);
    OptionTokensAppend(tokens + [flag], SplitAll(values));
    OptionTokensAppend(tokens, [flag]);
    NoOptionTokensInValues(values);
    assert OptionTokens([flag]) == [flag];
  }

  /** The option tokens of a plain query's argv, split at whitespace and
      stripped of "--", are the argument names in order: no value is taken
      for a name, even one holding spaces. */
  lemma {:induction false} PlainQueryNames(arguments: seq<(string, seq<Bytes>)>, toUnicode: Bytes -> Option<string>)
    requires PlainQuery(arguments, toUnicode)
    ensures StripDashes(OptionTokens(SplitAll(QueryArgv(arguments, toUnicode)))) == Names(arguments)
  {
    if arguments != [] {
      var init := arguments[..|arguments| - 1];
      var (key, vlist) := arguments[|arguments| - 1];
      PlainQueryInit(arguments, toUnicode);
      PlainQueryNames(init, toUnicode);
      ArgvTailNames(QueryArgv(init, toUnicode), key, DecodeAll(vlist, toUnicode));
      NamesOfInit(arguments);
    }
  }

  /** When argparse lists leftover plain query arguments as unrecognized,
      printing their argv joined by spaces, the 400 reason lists exactly the
      argument names, in order, and none of their values. */
  lemma UnrecognizedQueryReported(arguments: seq<(string, seq<Bytes>)>, toUnicode: Bytes -> Option<string>, stderr: string, ts: string)
    requires PlainQuery(arguments, toUnicode)
    requires RequiredClause(stderr).None?
    requires UnrecognizedList(stderr) == Some(Join(QueryArgv(arguments, toUnicode), " "))
    ensures TranslateError(SystemExit, stderr, ts) == UnrecognizedHead + " " + Join(Names(arguments), ", ")
  {
    PlainQueryNames(arguments, toUnicode);
    SplitJoin(QueryArgv(arguments, toUnicode));
  }

  /** A JSON body whose names survive the "--" stripping and none of whose
      encoded values splits into a token that looks like an option. */
  predicate PlainJson(fields: seq<(string, Json)>, dumps: Json -> string)
  {
    forall k :: 0 <= k < |fields| ==> PlainName(fields[k].0) && PlainValue(dumps(fields[k].1))
  }

  lemma PlainJsonInit(fields: seq<(string, Json)>, dumps: Json -> string)
    requires fields != [] && PlainJson(fields, dumps)
    ensures PlainJson(fields[..|fields| - 1], dumps)
    ensures PlainName(fields[|fields| - 1].0) && PlainValue(dumps(fields[|fields| - 1].1))
  {
    var init := fields[..|fields| - 1];
    forall k | 0 <= k < |init|
      ensures init[k] == fields[k]
    {
    }
  }

  /** The option tokens of a plain JSON body's argv, split at whitespace and
      stripped of "--", are the keys in order: an encoded value such as
      `[{"apple": true}]` adds no name, though it holds spaces. */
  lemma {:induction false} PlainJsonNames(fields: seq<(string, Json)>, dumps: Json -> string)
    requires PlainJson(fields, dumps)
    ensures StripDashes(OptionTokens(SplitAll(JsonArgv(fields, dumps)))) == Names(fields)
  {
    if fields != [] {
      var init := fields[..|fields| - 1];
      var (key, val) := fields[|fields| - 1];
      PlainJsonInit(fields, dumps);
      PlainJsonNames(init, dumps);
      assert JsonArgv(fields, dumps) == JsonArgv(init, dumps) + ["--" + key] + [dumps(val)];
      assert forall t :: t in [dumps(val)] ==> PlainValue(t);
      ArgvTailNames(JsonArgv(init, dumps), key, [dumps(val)]);
      NamesOfInit(fields);
    }
  }

  /** When argparse lists the leftover keys of a plain JSON body as
      unrecognized, printing their argv joined by spaces, the 400 reason
      lists exactly the keys, in order, and nothing of their values. */
  lemma UnrecognizedJsonReported(fields: seq<(string, Json)>, dumps: Json -> string, stderr: string, ts: string)
    requires PlainJson(fields, dumps)
    requires RequiredClause(stderr).None?
    requires UnrecognizedList(stderr) == Some(Join(JsonArgv(fields, dumps), " "))
    ensures TranslateError(SystemExit, stderr, ts) == UnrecognizedHead + " " + Join(Names(fields), ", ")
  {
    PlainJsonNames(fields, dumps);
    SplitJoin(JsonArgv(fields, dumps));
  }

  /** An invalid-value reason keeps the "argument " lead and never contains "--". */
  lemma InvalidValueReported(text: string, stderr: string, ts: string)
    requires InvalidGroup(text).Some?
    ensures StartsWith(TranslateError(ArgumentError(text), stderr, ts), ArgumentWord)
    ensures NoDoubleDash(TranslateError(ArgumentError(text), stderr, ts))
  {
    TranslateInvalid(text, stderr, ts);
    InvalidReasonShape(InvalidGroup(text).value);
  }

  /** Removing "--" from a group that starts with "argument " and adding
      " type" keeps the lead and leaves no "--". */
  lemma InvalidReasonShape(g: string)
    requires StartsWith(g, ArgumentWord)
    ensures StartsWith(ReplaceAll(g, "--", "") + " type", ArgumentWord)
    ensures NoDoubleDash(ReplaceAll(g, "--", "") + " type")
  {
    var stripped := ReplaceAll(g, "--", "");
    StripDashesLeavesNoDoubleDash(g);
    var msg := stripped + " type";
    assert msg[|msg| - 5] == ' ';
    assert forall i :: 0 <= i < |stripped| ==> msg[i] == stripped[i];
    assert g == ArgumentWord + g[|ArgumentWord|..];
    ReplaceAllKeepsDashFreePrefix(ArgumentWord, g[|ArgumentWord|..], "--", "");
  }

  /** The text of the ArgumentError argparse raises for a value its type
      rejects, as in "argument --foo: invalid int value: 'hank'". */
  function InvalidValueText(name: string, typ: string, v: string): string
  {
    "argument --" + name + ": invalid " + typ + " value: '" + v + "'"
  }

  /** A value with no ": invalid" of its own, as `{"abc": 123}` or "12:30". */
  predicate NoInvalidWord(v: string)
  {
    forall i :: 0 <= i < |v| ==> !InvalidWordAt(v, i)
  }

  predicate InvalidWordAt(v: string, i: nat)
  {
    i + |InvalidWord| <= |v| && v[i..i + |InvalidWord|] == InvalidWord
  }

  /** Between the ':' that ends group 1 and the value, the only ':' of an
      invalid-value text is the one of " value:", two characters before a
      quote; the value is copied after it, and a quote ends the text. */
  lemma InvalidValueTextLayout(name: string, typ: string, v: string)
    requires ':' !in typ
    ensures var line := InvalidValueText(name, typ, v);
            var p0 := 11 + |name|;
            var q := p0 + 10 + |typ|;
            && |line| == q + 10 + |v|
            && line[q + 8] == '\''
            && line[|line| - 1] == '\''
            && line[q + 9..q + 9 + |v|] == v
            && forall i :: p0 < i < q + 9 && i != q + 6 ==> line[i] != ':'
  {
    var line := InvalidValueText(name, typ, v);
    var p0 := 11 + |name|;
    var q := p0 + 10 + |typ|;
    var head := "argument --" + name;
    var lead := ": invalid ";
    var quote := " value: '";
    assert line == head + lead + typ + quote + v + "'";
    forall i | p0 < i < q + 9 && i != q + 6
      ensures line[i] != ':'
    {
      if i < p0 + 10 {
        assert line[i] == lead[i - p0];
      } else if i < q {
        assert line[i] == typ[i - p0 - 10] && typ[i - p0 - 10] in typ;
      } else {
        assert line[i] == quote[i - q];
      }
    }
    assert line[q + 8] == quote[8];
    assert line[q + 9..q + 9 + |v|] == v;
  }

  /** No ": invalid" after the first one can end group 1: before the value
      there is no other ':' that could start one, inside the value there is
      none, and none can reach the closing quote. */
  lemma NoLaterInvalidEnd(name: string, typ: string, v: string, p: nat)
    requires ':' !in typ && NoInvalidWord(v)
    requires 11 + |name| < p
    ensures !InvalidEndAt(InvalidValueText(name, typ, v), p)
  {
    var line := InvalidValueText(name, typ, v);
    var q := 11 + |name| + 10 + |typ|;
    InvalidValueTextLayout(name, typ, v);
    if p + |InvalidWord| <= |line| {
      var window := line[p..p + |InvalidWord|];
      if p < q + 9 {
        assert window[0] == line[p];
        assert window[2] == line[p + 2];
      } else if p + |InvalidWord| <= q + 9 + |v| {
        var at := p - (q + 9);
        assert window == v[at..at + |InvalidWord|];
        assert !InvalidWordAt(v, at);
      } else {
        assert window[|line| - 1 - p] == '\'';
      }
    }
  }

  /** The first ": invalid" of an invalid-value text is followed by
      " <type> value: '<value>'", as the pattern demands. */
  lemma FirstInvalidEnd(name: string, typ: string, v: string)
    requires typ != "" && v != ""
    ensures InvalidEndAt(InvalidValueText(name, typ, v), 11 + |name|)
    ensures ArgumentWordAt(InvalidValueText(name, typ, v), 0)
    ensures InvalidValueText(name, typ, v)[..11 + |name| + |InvalidWord|] == "argument --" + name + InvalidWord
  {
    var line := InvalidValueText(name, typ, v);
    var p0 := 11 + |name|;
    var q := p0 + 10 + |typ|;
    var head := "argument --" + name;
    assert line == (head + InvalidWord) + (" " + typ) + (ValueQuote + v + "'");
    assert line[p0..p0 + |InvalidWord|] == InvalidWord;
    assert line[p0 + |InvalidWord|] == ' ';
    assert line[q..q + |ValueQuote|] == ValueQuote;
    assert line[q + |ValueQuote| + 1..][|v| - 1] == '\'';
    assert ValueQuoteAt(line, q);
    assert line[..|ArgumentWord|] == ArgumentWord;
  }

  /** In an invalid-value text, group 1 runs from the start of the text to
      the first ": invalid". */
  lemma InvalidValueGroupInLine(name: string, typ: string, v: string)
    requires typ != "" && ':' !in typ && NoInvalidWord(v) && v != ""
    ensures InvalidGroupInLine(InvalidValueText(name, typ, v)) == Some("argument --" + name + InvalidWord)
  {
    var line := InvalidValueText(name, typ, v);
    var p0 := 11 + |name|;
    InvalidValueTextEnd(name, typ, v);
    InvalidValueTextStart(name, typ, v);
    FirstInvalidEnd(name, typ, v);
    assert line[0..p0 + |InvalidWord|] == line[..p0 + |InvalidWord|];
  }

  /** Group 1 of an invalid-value text ends at its first ": invalid". */
  lemma InvalidValueTextEnd(name: string, typ: string, v: string)
    requires typ != "" && ':' !in typ && NoInvalidWord(v) && v != ""
    ensures LastInvalidEnd(InvalidValueText(name, typ, v)) == Some(11 + |name|)
  {
    var line := InvalidValueText(name, typ, v);
    var p0 := 11 + |name|;
    FirstInvalidEnd(name, typ, v);
    forall p: nat | p0 < p
      ensures !InvalidEndAt(line, p)
    {
      NoLaterInvalidEnd(name, typ, v, p);
    }
  }

  /** Group 1 of an invalid-value text starts at its beginning. */
  lemma InvalidValueTextStart(name: string, typ: string, v: string)
    requires typ != "" && v != ""
    ensures FirstArgumentWord(InvalidValueText(name, typ, v), 11 + |name|) == Some(0)
  {
    FirstInvalidEnd(name, typ, v);
  }

  /** The search over the whole text finds that group, since the text is one
      line. */
  lemma InvalidValueGroup(name: string, typ: string, v: string)
    requires '\n' !in name
    requires typ != "" && ':' !in typ && '\n' !in typ
    requires v != "" && NoInvalidWord(v) && '\n' !in v
    ensures InvalidGroup(InvalidValueText(name, typ, v)) == Some("argument --" + name + InvalidWord)
  {
    var line := InvalidValueText(name, typ, v);
    assert '\n' !in line;
    SingleLine(line);
    InvalidValueGroupInLine(name, typ, v);
    assert FirstInvalidLine([line]) == Some(0);
  }

  /** `'.+'` needs a character between the quotes, so a blank value, as a
      query `?foo=` gives to an int argument, matches no pattern: the reason
      is the unknown-error message rather than "argument foo: invalid type". */
  lemma EmptyValueUnknown(name: string, typ: string, stderr: string, ts: string)
    requires '\'' !in name && '\n' !in name
    requires '\'' !in typ && '\n' !in typ
    ensures TranslateError(ArgumentError(InvalidValueText(name, typ, "")), stderr, ts) == UnknownMessage(ts)
  {
    var line := InvalidValueText(name, typ, "");
    EmptyValueNoQuoteTail(name, typ);
    assert '\n' !in line;
    SingleLine(line);
    assert FirstInvalidLine([line]).None?;
  }

  /** In an invalid-value text with a blank value the only quotes are the
      last two characters, so no " value: '" has a quote after it. */
  lemma EmptyValueNoQuoteTail(name: string, typ: string)
    requires '\'' !in name && '\'' !in typ
    ensures forall p: nat :: !InvalidEndAt(InvalidValueText(name, typ, ""), p)
  {
    var line := InvalidValueText(name, typ, "");
    var head := "argument --" + name + ": invalid " + typ + " value: ";
    assert line == head + "''";
    assert forall i :: 0 <= i < |head| ==> line[i] == head[i];
    forall i | 0 <= i < |head|
      ensures line[i] != '\''
    {
      var h0 := "argument --";
      var h1 := ": invalid ";
      var h2 := " value: ";
      assert head == h0 + name + h1 + typ + h2;
      if i < |h0| {
        assert head[i] == h0[i];
      } else if i < |h0| + |name| {
        assert head[i] == name[i - |h0|];
      } else if i < |h0| + |name| + |h1| {
        assert head[i] == h1[i - |h0| - |name|];
      } else if i < |h0| + |name| + |h1| + |typ| {
        assert head[i] == typ[i - |h0| - |name| - |h1|];
      } else {
        assert head[i] == h2[i - |h0| - |name| - |h1| - |typ|];
      }
    }
    forall q: nat
      ensures !ValueQuoteAt(line, q)
    {
      if q + |ValueQuote| < |line| && line[q..q + |ValueQuote|] == ValueQuote {
        assert line[q + 8] == ValueQuote[8];
        assert line[q + |ValueQuote| + 1..] == [];
      }
    }
  }

  /** The same text for a value holding a single quote and no double quote,
      which argparse's `%r` renders between double quotes, as "it's". */
  function DoubleQuotedValueText(name: string, typ: string, v: string): string
  {
    "argument --" + name + ": invalid " + typ + " value: \"" + v + "\""
  }

  predicate ValueQuoteWithin(v: string, i: nat)
  {
    i + |ValueQuote| <= |v| && v[i..i + |ValueQuote|] == ValueQuote
  }

  /** A double-quoted value matches no pattern either, unless it spells out
      " value: '" itself: the reason is the unknown-error message. */
  lemma DoubleQuotedValueUnknown(name: string, typ: string, v: string, stderr: string, ts: string)
    requires '\'' !in name && '\n' !in name
    requires '\'' !in typ && '\n' !in typ
    requires '\n' !in v && forall i :: 0 <= i < |v| ==> !ValueQuoteWithin(v, i)
    ensures TranslateError(ArgumentError(DoubleQuotedValueText(name, typ, v)), stderr, ts) == UnknownMessage(ts)
  {
    var line := DoubleQuotedValueText(name, typ, v);
    DoubleQuotedNoQuoteTail(name, typ, v);
    assert '\n' !in line;
    SingleLine(line);
    assert FirstInvalidLine([line]).None?;
  }

  /** Only the value can hold a single quote, and no " value: '" lies in it
      or overlaps the double quotes around it. */
  lemma DoubleQuotedNoQuoteTail(name: string, typ: string, v: string)
    requires '\'' !in name && '\'' !in typ
    requires forall i :: 0 <= i < |v| ==> !ValueQuoteWithin(v, i)
    ensures forall p: nat :: !InvalidEndAt(DoubleQuotedValueText(name, typ, v), p)
  {
    var line := DoubleQuotedValueText(name, typ, v);
    var head := "argument --" + name + ": invalid " + typ + " value: ";
    var start := |head| + 1;
    assert line == head + "\"" + v + "\"";
    assert forall i :: 0 <= i < |head| ==> line[i] == head[i];
    assert line[start - 1] == '\"' && line[|line| - 1] == '\"';
    assert line[start..start + |v|] == v;
    forall i | 0 <= i < |head|
      ensures line[i] != '\''
    {
      var h0 := "argument --";
      var h1 := ": invalid ";
      var h2 := " value: ";
      assert head == h0 + name + h1 + typ + h2;
      if i < |h0| {
        assert head[i] == h0[i];
      } else if i < |h0| + |name| {
        assert head[i] == name[i - |h0|];
      } else if i < |h0| + |name| + |h1| {
        assert head[i] == h1[i - |h0| - |name|];
      } else if i < |h0| + |name| + |h1| + |typ| {
        assert head[i] == typ[i - |h0| - |name| - |h1|];
      } else {
        assert head[i] == h2[i - |h0| - |name| - |h1| - |typ|];
      }
    }
    forall q: nat
      ensures !ValueQuoteAt(line, q)
    {
      if q + |ValueQuote| < |line| {
        var window := line[q..q + |ValueQuote|];
        if q + 8 < start - 1 {
          assert window[8] == line[q + 8];
        } else if q < start {
          assert window[start - 1 - q] == '\"';
        } else {
          var at := q - start;
          assert window == v[at..at + |ValueQuote|];
          assert !ValueQuoteWithin(v, at);
        }
      }
    }
  }

  /** A JSON object value keeps its own ':' and is still reported by name:
      "argument --dicto: invalid <lambda> value: '{"abc": 123}'" becomes
      "argument dicto: invalid type" (ArgumentWord is "argument "). */
  lemma InvalidDictReported(stderr: string, ts: string)
    ensures TranslateError(ArgumentError(InvalidValueText("dicto", "<lambda>", DictValue)), stderr, ts)
            == ArgumentWord + "dicto" + ": invalid type"
  {
    DictValueHasNoInvalidWord();
    assert NoDoubleDash("dicto") && ':' !in "<lambda>";
    InvalidTypeReported("dicto", "<lambda>", DictValue, stderr, ts);
  }

  const DictValue := "{\"abc\": 123}"

  lemma DictValueHasNoInvalidWord()
    ensures NoInvalidWord(DictValue)
  {
    forall i | 0 <= i < |DictValue|
      ensures !InvalidWordAt(DictValue, i)
    {
      if i + |InvalidWord| <= |DictValue| {
        assert DictValue[i..i + |InvalidWord|][0] == DictValue[i];
      }
    }
  }

  /** argparse's "argument --foo: invalid int value: 'hank'" becomes the
      reason "argument foo: invalid type": the flag loses its dashes and the
      type and the value are dropped. */
  lemma InvalidTypeReported(name: string, typ: string, v: string, stderr: string, ts: string)
    requires ':' !in name && '\n' !in name && NoDoubleDash(name)
    requires typ != "" && ':' !in typ && '\n' !in typ
    requires v != "" && NoInvalidWord(v) && '\n' !in v
    ensures TranslateError(ArgumentError(InvalidValueText(name, typ, v)), stderr, ts) == ArgumentWord + name + ": invalid type"
  {
    var line := InvalidValueText(name, typ, v);
    var group := "argument --" + name + InvalidWord;
    InvalidValueGroup(name, typ, v);
    FlagGroupLosesDashes(name);
    TranslateInvalid(line, stderr, ts);
    assert TranslateError(ArgumentError(line), stderr, ts) == (ArgumentWord + name) + InvalidWord + " type";
    InvalidTypeWords(ArgumentWord + name);
  }

  lemma InvalidTypeWords(x: string)
    ensures x + InvalidWord + " type" == x + ": invalid type"
  {
    assert forall i :: 0 <= i < |x| + 14 ==> (x + InvalidWord + " type")[i] == (x + ": invalid type")[i];
  }

  /** Removing "--" from "argument --<name>: invalid" leaves only the flag's
      leading dashes out. */
  lemma FlagGroupLosesDashes(name: string)
    requires NoDoubleDash(name)
    ensures ReplaceAll("argument --" + name + InvalidWord, "--", "") == ArgumentWord + name + InvalidWord
  {
    PatternWordsPlain();
    NoDoubleDashAppend(name, InvalidWord);
    FlagLosesDashes(ArgumentWord, name + InvalidWord);
    assert "argument --" + name + InvalidWord == ArgumentWord + "--" + (name + InvalidWord);
  }

  /** The literal words around group 1 hold no dashes to remove. */
  lemma PatternWordsPlain()
    ensures '-' !in ArgumentWord && ArgumentWord[|ArgumentWord| - 1] != '-'
    ensures NoDoubleDash(InvalidWord) && InvalidWord[0] != '-'
  {
    assert forall i :: 0 <= i < |InvalidWord| ==> InvalidWord[i] != '-';
  }

  /** Which of the four kinds of reason a failure gets. */
  datatype Reason = MissingArguments | UnrecognizedArguments | InvalidValue | UnknownError

  function Classify(exc: ParseFailure, stderr: string): Reason
  {
    match exc
    case SystemExit =>
      if RequiredClause(stderr).Some? then MissingArguments
      else if UnrecognizedList(stderr).Some? then UnrecognizedArguments
      else UnknownError
    case ArgumentError(text) => if InvalidGroup(text).Some? then InvalidValue else UnknownError
    case OtherException(_) => UnknownError
  }

  /** How a reason of each kind begins. */
  function Head(r: Reason): string
  {
    match r
    case MissingArguments => RequiredHead
    case UnrecognizedArguments => UnrecognizedHead
    case InvalidValue => ArgumentWord
    case UnknownError => UnknownHead
  }

  /** The four heads already differ in their first character. */
  lemma HeadsDiffer(r: Reason, other: Reason)
    requires r != other
    ensures Head(r) != "" && Head(other) != "" && Head(r)[0] != Head(other)[0]
  {
  }

  lemma PrefixOfAppend(a: string, b: string, c: string)
    ensures StartsWith(a + b + c, a)
  {
    assert (a + b + c)[..|a|] == a;
  }

  lemma ReasonStartsWithHead(exc: ParseFailure, stderr: string, ts: string)
    ensures StartsWith(TranslateError(exc, stderr, ts), Head(Classify(exc, stderr)))
  {
    if exc.SystemExit? && RequiredClause(stderr).Some? {
      MissingReasonHead(stderr, ts);
    } else if exc.SystemExit? && UnrecognizedList(stderr).Some? {
      UnrecognizedReasonHead(stderr, ts);
    } else if exc.ArgumentError? && InvalidGroup(exc.text).Some? {
      InvalidValueReported(exc.text, stderr, ts);
    } else {
      PrefixOfAppend(UnknownHead, ts, ")");
    }
  }

  lemma MissingReasonHead(stderr: string, ts: string)
    requires RequiredClause(stderr).Some?
    ensures StartsWith(TranslateError(SystemExit, stderr, ts), RequiredHead)
  {
    var clause := RequiredClause(stderr).value;
    var rest := clause[|RequiredHead|..];
    TranslateRequired(stderr, ts);
    assert clause == RequiredHead + rest;
    ReplaceAllKeepsDashFreePrefix(RequiredHead, rest, " --", " ");
    PrefixOfAppend(RequiredHead, ReplaceAll(rest, " --", " "), "");
    assert RequiredHead + ReplaceAll(rest, " --", " ") + "" == RequiredHead + ReplaceAll(rest, " --", " ");
  }

  lemma UnrecognizedReasonHead(stderr: string, ts: string)
    requires RequiredClause(stderr).None? && UnrecognizedList(stderr).Some?
    ensures StartsWith(TranslateError(SystemExit, stderr, ts), UnrecognizedHead)
  {
    TranslateUnrecognized(stderr, ts);
    var names := Join(UnrecognizedNames(UnrecognizedList(stderr).value), ", ");
    PrefixOfAppend(UnrecognizedHead, " ", names);
  }

  /** The reason tells the cases apart by how it starts: a missing-argument
      list, an unrecognized-argument list, an invalid value, or, exactly when
      no pattern applies, the unknown-error message. */
  lemma TranslationClassifies(exc: ParseFailure, stderr: string, ts: string)
    ensures var msg := TranslateError(exc, stderr, ts);
            && (StartsWith(msg, RequiredHead) <==> exc.SystemExit? && RequiredClause(stderr).Some?)
            && (StartsWith(msg, UnrecognizedHead) <==>
                  exc.SystemExit? && RequiredClause(stderr).None? && UnrecognizedList(stderr).Some?)
            && (StartsWith(msg, ArgumentWord) <==> exc.ArgumentError? && InvalidGroup(exc.text).Some?)
            && (StartsWith(msg, UnknownHead) <==> !Recognized(exc, stderr))
  {
    var msg := TranslateError(exc, stderr, ts);
    var r := Classify(exc, stderr);
    ReasonStartsWithHead(exc, stderr, ts);
    forall other | other != r
      ensures !StartsWith(msg, Head(other))
    {
      HeadsDiffer(r, other);
      PrefixesDisagree(msg, Head(r), Head(other));
    }
    assert Head(MissingArguments) == RequiredHead;
    assert Head(UnrecognizedArguments) == UnrecognizedHead;
    assert Head(InvalidValue) == ArgumentWord;
    assert Head(UnknownError) == UnknownHead;
    ClassifyCases(exc, stderr);
  }

  /** The kind of reason, in terms of the patterns that matched. */
  lemma ClassifyCases(exc: ParseFailure, stderr: string)
    ensures Classify(exc, stderr) == MissingArguments <==> exc.SystemExit? && RequiredClause(stderr).Some?
    ensures Classify(exc, stderr) == UnrecognizedArguments <==>
            exc.SystemExit? && RequiredClause(stderr).None? && UnrecognizedList(stderr).Some?
    ensures Classify(exc, stderr) == InvalidValue <==> exc.ArgumentError? && InvalidGroup(exc.text).Some?
    ensures Classify(exc, stderr) == UnknownError <==> !Recognized(exc, stderr)
  {
  }

  // ---------------------------------------------------------------------------
  // parse_args: the outcome

  /** What argparse's `parse_args` does with the argv: a namespace, or a
      failure together with what it wrote to stderr. */
  datatype ParseOutcome<N> = Parsed(namespace: N) | Failed(failure: ParseFailure, capturedStderr: string)

  /** What `ArgumentHandler.parse_args` returns or raises. */
  datatype HandlerResult<N> = Namespace(ns: N) | Rejected(error: HttpError) | Raised

  const NotJsonReason := "requests body is not JSON-encoded"
  const NotDictReason := "JSON-encoded requests body must be a 'dict'"

  /** The handler's answer once argparse has run. */
  function Conclude<N>(outcome: ParseOutcome<N>, ts: string): (r: HandlerResult<N>)
    ensures r.Namespace? <==> outcome.Parsed?
    ensures r.Namespace? ==> r.ns == outcome.namespace
    ensures !r.Namespace? ==> r.Rejected? && r.error.status == 400 && r.error.logMessage.None?
    ensures r.Rejected? ==> r.error.reason == TranslateError(outcome.failure, outcome.capturedStderr, ts)
  {
    match outcome
    case Parsed(ns) => Namespace(ns)
    case Failed(failure, stderr) => Rejected(HttpError(400, TranslateError(failure, stderr, ts), None))
  }

  // ---------------------------------------------------------------------------
  // The handler

  class ArgumentHandler {
    const argumentSource: ArgumentSource
    /** `rest_handler.request` */
    const request: Request
    /** The arguments added to the underlying argparse parser, in order. */
    var registered: seq<Registration>

    ghost predicate Valid()
      reads this
    {
      forall k :: 0 <= k < |registered| ==>
        Enforceable(registered[k].options) && InstalledType(argumentSource, registered[k].options.typ)
    }

    constructor (argumentSource: ArgumentSource, request: Request)
      ensures Valid()
      ensures this.argumentSource == argumentSource && this.request == request
      ensures registered == []
    {
      this.argumentSource := argumentSource;
      this.request := request;
      registered := [];
    }

    /** `add_argument(name, *positional, **opts)`: rewrites `type` and
        `required`, then registers "--name" with argparse; or raises
        ValueError, registering nothing. */
    method AddArgument(name: string, positional: seq<Json>, opts: Options) returns (err: Option<string>)
      requires Valid()
      modifies this
      ensures Valid()
      ensures Normalize(argumentSource, name, opts).ConfigError? ==>
        err == Some(Normalize(argumentSource, name, opts).message) && registered == old(registered)
      ensures Normalize(argumentSource, name, opts).Accepted? ==>
        err.None? && registered == old(registered) + [Registration("--" + name, positional, Normalize(argumentSource, name, opts).options)]
    {
      match Normalize(argumentSource, name, opts)
      case ConfigError(message) =>
        err := Some(message);
      case Accepted(options) =>
        err := None;
        registered := registered + [Registration("--" + name, positional, options)];
    }

    /** `parse_args()`: flatten the request's arguments into argv strings, run
        argparse on them, and turn a failure into a 400 error. A JSON body that
        does not decode, or decodes to anything but an object, is rejected
        before argparse runs. */
    method ParseArgs<N>(
      argparse: (seq<Registration>, seq<string>) -> ParseOutcome<N>,
      loads: Bytes -> Loaded,
      dumps: Json -> string,
      toUnicode: Bytes -> Option<string>,
      ts: string)
      returns (r: HandlerResult<N>)
      requires Valid()
      ensures argumentSource == QueryArguments && !QueryDecodes(request.arguments, toUnicode) ==> r == Raised
      ensures argumentSource == QueryArguments && QueryDecodes(request.arguments, toUnicode) ==>
        r == Conclude(argparse(registered, QueryArgv(request.arguments, toUnicode)), ts)
      ensures argumentSource == JsonBodyArguments && loads(request.body) == JsonDecodeError ==>
        r == Rejected(HttpError(400, NotJsonReason, None))
      ensures argumentSource == JsonBodyArguments && loads(request.body) == OtherDecodeError ==>
        r == Raised
      ensures argumentSource == JsonBodyArguments && loads(request.body).Loaded? && !loads(request.body).value.JObject? ==>
        r == Rejected(HttpError(400, NotDictReason, None))
      ensures argumentSource == JsonBodyArguments && loads(request.body).Loaded? && loads(request.body).value.JObject? ==>
        r == Conclude(argparse(registered, JsonArgv(loads(request.body).value.fields, dumps)), ts)
    {
      var argStrings: seq<string> := [];
      if argumentSource == JsonBodyArguments {
        var source := loads(request.body);
        if source == JsonDecodeError {
          return Rejected(HttpError(400, NotJsonReason, None));
        } else if source == OtherDecodeError {
          return Raised;
        }
        if !source.value.JObject? {
          return Rejected(HttpError(400, NotDictReason, None));
        }
        var items := source.value.fields;
        for i := 0 to |items|
          invariant argStrings == JsonArgv(items[..i], dumps)
        {
          var (key, val) := items[i];
          argStrings := argStrings + ["--" + key];
          argStrings := argStrings + [dumps(val)];
          assert items[..i + 1][..i] == items[..i];
        }
        assert items[..|items|] == items;
      } else {
        var arguments := request.arguments;
        for i := 0 to |arguments|
          invariant argStrings == QueryArgv(arguments[..i], toUnicode)
          invariant QueryDecodes(arguments[..i], toUnicode)
        {
          var (key, vlist) := arguments[i];
          argStrings := argStrings + ["--" + key];
          ghost var before := argStrings;
          for j := 0 to |vlist|
            invariant argStrings == before + DecodeAll(vlist[..j], toUnicode)
            invariant forall v :: v in vlist[..j] ==> toUnicode(v).Some?
          {
            var text := toUnicode(vlist[j]);
            if text.None? {
              assert !QueryDecodes(request.arguments, toUnicode) by {
                assert vlist[j] in arguments[i].1;
              }
              return Raised;
            }
            argStrings := argStrings + [text.value];
            assert DecodeAll(vlist[..j + 1], toUnicode) == DecodeAll(vlist[..j], toUnicode) + [text.value];
          }
          assert vlist[..|vlist|] == vlist;
          assert arguments[..i + 1][..i] == arguments[..i];
          assert QueryDecodes(arguments[..i + 1], toUnicode) by {
            forall k | 0 <= k < i
              ensures arguments[..i + 1][k] == arguments[..i][k]
            {
            }
          }
        }
        assert arguments[..|arguments|] == arguments;
      }
      r := Conclude(argparse(registered, argStrings), ts);
    }
  }
}
