# http_yaml external pillar, modelled in Dafny

Salt's `http_yaml` external pillar fetches a minion's pillar data over HTTP. The
configured url is resolved in two steps. First, every `%s` becomes the
percent-encoded minion id. Then, when `with_grains` is set, every `<name>`
placeholder becomes the percent-encoded `str()` of the grain `name`. A grain
that is missing or falsy ends the plugin with an empty pillar before any request
is made. The answer to the request is YAML-decoded by the host, and its `dict`
entry becomes the pillar; without one, the pillar is `{}`.

The model covers that resolution and that interpretation. The grain store
(`grains.get`) and the HTTP request (`http.query`) are host services; the model
takes them as function parameters.

Modules, one per concern:

- `Strings` (strings.dfy): literal replace-all, as `str.replace` performs it,
  and the split/join characterisation of it.
- `Percent` (percent.dfy): `quote` as in Python 3. The text is encoded as UTF-8.
  Each byte is then kept if it is RFC 3986 unreserved or `/`, and otherwise
  written `%XX` in upper-case hex. A decoder is included so that the round trip
  can be stated.
- `Grains` (grains.dfy): grain values, Python truthiness (`not grain_value`) and
  `str()`.
- `GrainPattern` (grain_pattern.dfy): the matches `re.finditer(r'<(?P<grain_name>.*?)>', url)`
  yields. The scan is proved to find exactly the leftmost, lazy, non-overlapping
  matches, and any such sequence of matches is proved to be the one the scan finds.
- `Templates` (templates.dfy): urls built from literal text and `<name>` holes,
  with brackets used for nothing else. On such urls the scan finds exactly the
  holes, and replacing `<name>` fills exactly the holes called `name`.
- `HttpYaml` (httpyaml.dfy): the plugin. `Expand` is the `%s` step. The loop
  over the matches is the method `SubstituteGrains`, proved against the
  function `ResolveGrains`. `Interpret` is the `dict` check. `ExtPillar`
  composes these with the injected `query`.
- `Scenarios` (scenarios.dfy): worked cases. They cover a repeated placeholder,
  `%s` inside brackets, a zero-valued grain and an encoded space.

## Model

| member | source | states |
|---|---|---|
| Strings.ReplaceAllJoinsSplit | salt/pillar/http_yaml.py:79 | replacing every occurrence of a pattern is the same as splitting the text at its left-to-right, non-overlapping occurrences and joining the pieces with the replacement |
| Strings.SplitJoinsBack | salt/pillar/http_yaml.py:79 | joining the pieces of a split with the pattern gives the text back, so nothing but the occurrences is touched |
| Strings.SplitPiecesAreFree | salt/pillar/http_yaml.py:79 | no piece of a split contains the pattern, so the replace leaves no occurrence behind |
| Strings.ReplaceAllAbsent | salt/pillar/http_yaml.py:79 | a text in which the pattern does not occur is returned unchanged |
| Strings.ReplaceAllSkip | salt/pillar/http_yaml.py:95 | a prefix free of the pattern's first character passes through the replace untouched |
| Strings.ReplaceAllKeepsOut | salt/pillar/http_yaml.py:95 | when neither the text nor the replacement contains a character, the result does not contain it either |
| Percent.Utf8 | salt/pillar/http_yaml.py:51 | a character's UTF-8 encoding is the shortest form for its code point (1 byte below U+0080, 2 below U+0800, 3 below U+10000, else 4), its lead byte announces that length, every later byte is a continuation byte `10xxxxxx`, and the bytes carry the character's code point |
| Percent.Utf8OfSequence | salt/pillar/http_yaml.py:51 | a well-formed sequence (announced length, continuation bytes, shortest form, scalar value) is exactly the UTF-8 encoding of its code point, so each character has one encoding only |
| Percent.Utf8StringOfDecoded | salt/pillar/http_yaml.py:51 | whatever bytes the strict decoder accepts are the UTF-8 encoding of the text it returns, so no overlong or malformed form decodes |
| Percent.EncodeBytes | salt/pillar/http_yaml.py:51 | the encoding of any bytes consists only of unreserved characters, `/` and `%XX` triples with upper-case hex |
| Percent.Quote | salt/pillar/http_yaml.py:79 | the output of `quote` is well encoded: safe characters and `%XX` triples only |
| Percent.WellEncodedChars | salt/pillar/http_yaml.py:94 | every character of well-encoded text is an unreserved character, `/` or `%` |
| Percent.QuoteHasNoBrackets | salt/pillar/http_yaml.py:94-95 | an encoded value never contains `<` or `>`, so by itself it can neither open nor close a placeholder |
| Percent.DecodeEncodeBytes | salt/pillar/http_yaml.py:51 | percent-decoding the encoding of bytes gives the bytes back |
| Percent.DecodeUtf8String | salt/pillar/http_yaml.py:51 | UTF-8 decoding of a string's encoding gives the string back |
| Percent.UnquoteQuote | salt/pillar/http_yaml.py:79 | decoding the output of `quote` (percent-decoding, then strict UTF-8 decoding) gives back every string: the encoding loses nothing |
| Percent.QuoteSafeIsIdentity | salt/pillar/http_yaml.py:79 | text made only of unreserved characters and `/` is its own encoding |
| Percent.QuoteAppend | salt/pillar/http_yaml.py:79 | the encoding of a concatenation is the concatenation of the encodings |
| Grains.NatToString | salt/pillar/http_yaml.py:94 | `str()` of a natural number is a non-empty string of decimal digits denoting that number, with no leading zero (zero itself is exactly `0`) |
| Grains.IntToString | salt/pillar/http_yaml.py:94 | `str()` of an integer is the `str()` of its magnitude, preceded by `-` exactly when it is negative, so it denotes the integer and has no leading zero |
| GrainPattern.Close | salt/pillar/http_yaml.py:81 | the end of a name, when found, lies inside the url at or after the name's start |
| GrainPattern.CloseIsLazy | salt/pillar/http_yaml.py:81 | the name ends at the first `>` with no newline before it, and when none exists no match opens there |
| GrainPattern.Scan | salt/pillar/http_yaml.py:86 | every match found starts at or after the search position, and its `>` lies after its `<` within the url |
| GrainPattern.ScanIsLazy | salt/pillar/http_yaml.py:81-87 | the scan's matches are lazy, in order and non-overlapping, and every `<` that could open a match lies inside one of them |
| GrainPattern.LazyScanIsUnique | salt/pillar/http_yaml.py:81-87 | any sequence of matches with those properties is the one the scan finds, so the scan is exactly leftmost, lazy, non-overlapping matching |
| GrainPattern.PlaceholdersAreLazyMatches | salt/pillar/http_yaml.py:86-87 | each grain name is the text between the brackets of one such match, and no name holds `>` or a newline |
| GrainPattern.NamesOfSpans | salt/pillar/http_yaml.py:87 | there is one name per match, and it is the text strictly between the match's brackets |
| GrainPattern.ScanSkip | salt/pillar/http_yaml.py:86 | text without `<` yields no match |
| GrainPattern.ScanAtPlaceholder | salt/pillar/http_yaml.py:86-87 | a `<name>` whose name holds no `>` or newline is the next match, and it yields that name |
| Templates.PlaceholdersOfTemplate | salt/pillar/http_yaml.py:86-87 | in a url whose brackets only delimit placeholders, the names found are exactly the placeholders, left to right, repeats included |
| Templates.ReplaceRender | salt/pillar/http_yaml.py:95 | in such a url, replacing `<name>` fills exactly the placeholders called `name`, at every position, and changes no other text |
| Templates.FillNameKeepsOthers | salt/pillar/http_yaml.py:94-95 | filling `<name>` with bracket-free text leaves exactly the placeholders with other names, and the url keeps its shape |
| Templates.FillNameThenFill | salt/pillar/http_yaml.py:95 | filling one name first and the rest afterwards gives the same url as filling all names at once |
| Templates.FillWithoutHoles | salt/pillar/http_yaml.py:95 | a url without placeholders is left as it is by filling |
| Templates.FillLeavesNoHoles | salt/pillar/http_yaml.py:94-95 | filling every placeholder with bracket-free text leaves none |
| Templates.HoleNamesHaveNoBrackets | salt/pillar/http_yaml.py:87 | the names of the placeholders of such a url hold no angle bracket |
| HttpYaml.ResolveGrains | salt/pillar/http_yaml.py:86-95 | a reported missing grain is one of the names that were walked |
| HttpYaml.Lookups | salt/pillar/http_yaml.py:88 | the grains looked up are a prefix of the names found, in order |
| HttpYaml.Resolve | salt/pillar/http_yaml.py:79-95 | the method's outcome and its lookups are those of `ResolveUrl` and `LookupsFor`; without `with_grains`, no grain is looked up and the url after the `%s` step is used as it stands |
| HttpYaml.SubstituteGrains | salt/pillar/http_yaml.py:86-95 | the loop that rebinds the url on each match and returns at the first falsy grain computes `ResolveGrains` and `Lookups` exactly |
| HttpYaml.FalsyFirstGrainSubstitutesNothing | salt/pillar/http_yaml.py:88-95 | when the first grain is falsy no name reaches `re.sub`, so the metacharacter requirement holds whatever the url's names are |
| HttpYaml.Interpret | salt/pillar/http_yaml.py:100-108 | the pillar is the `dict` entry of the answer when there is one, and the empty dictionary otherwise |
| HttpYaml.InterpretIgnoresOtherKeys | salt/pillar/http_yaml.py:100-108 | adding, changing or removing any key other than `dict` leaves the pillar unchanged |
| HttpYaml.ExtPillar | salt/pillar/http_yaml.py:65-108 | on a missing grain, no request is made and the pillar is `{}`; otherwise exactly the resolved url is requested and the pillar is the interpretation of its answer; the grains asked for are exactly `LookupsFor` |
| HttpYaml.ExpandReplacesEveryMarker | salt/pillar/http_yaml.py:79 | the url is its `%s`-free pieces joined by `%s`, and after the `%s` step it is the same pieces joined by the encoded minion id |
| HttpYaml.ExpandWithoutPercent | salt/pillar/http_yaml.py:79 | a url without `%` passes the `%s` step unchanged |
| HttpYaml.PlainUrlIsUnchanged | salt/pillar/http_yaml.py:79-98 | a url with no `%s` and no `<…>` match is queried exactly as configured, and no grain is looked up |
| HttpYaml.MissingGrainStops | salt/pillar/http_yaml.py:88-92 | at the first falsy grain the walk ends with that name: it is the last grain looked up, and nothing after it is asked for |
| HttpYaml.ResolvedIffAllTruthy | salt/pillar/http_yaml.py:88-95 | the walk produces a url if and only if every grain found is truthy, and then every name was looked up |
| HttpYaml.MissingGrainIsFirstFalsy | salt/pillar/http_yaml.py:88-92 | a reported missing grain is the first name whose grain is falsy |
| HttpYaml.ResolveTemplate | salt/pillar/http_yaml.py:86-95 | walking names that cover every placeholder of a well-formed url, with truthy grains, fills every placeholder with its encoded grain value |
| HttpYaml.TemplateResolves | salt/pillar/http_yaml.py:79-95 | when the url after the `%s` step is well formed and all its grains are truthy, every placeholder is looked up in order and filled with `quote(str(value))`, and the url queried holds no placeholder |
| Scenarios.RepeatedPlaceholder | salt/pillar/http_yaml.py:86-95 | a name written twice is looked up twice and replaced at both positions |
| Scenarios.MarkerBetweenText | salt/pillar/http_yaml.py:79 | a single `%s` between text without `%` becomes the encoded minion id |
| Scenarios.SpaceIsEncoded | salt/pillar/http_yaml.py:79 | `quote` turns a space into `%20` and leaves unreserved text on either side alone |
| Scenarios.ZeroGrainIsMissing | salt/pillar/http_yaml.py:88-92 | a grain whose value is `0` counts as missing: it is the only lookup and no url is resolved |
| Scenarios.MinionIdNamesAGrain | salt/pillar/http_yaml.py:79-88 | because the scan runs on the url after the `%s` step, `<%s>` makes the encoded minion id the name of the grain looked up |

## Left out

- Logging (`_LOG` at salt/pillar/http_yaml.py:58, 91, 97, 103-106): diagnostics with no effect on the result.
- `__virtual__` and the import-time `_HAS_DEPENDENCIES` gate (salt/pillar/http_yaml.py:50-62): a load-time check, not logic.
- `http.query` (salt/pillar/http_yaml.py:98): network I/O and YAML decoding in the host. It is the parameter `query`, from a url to the decoded envelope.
- `grains.get` (salt/pillar/http_yaml.py:88): the host's grain store. It is the parameter `grains`, a total function from names to values, and `NoValue` stands for its `None` default.
- HttpYaml.Resolve: requires that every grain name handed to `re.sub` is free of the regular-expression metacharacters `.^$*+?{}[]\|()`. These are the names reached with their own grain and every earlier one truthy. Line 95 uses such a name as an unescaped pattern, and only for metacharacter-free names is `re.sub` the literal replace the model performs. Names at or after the first falsy grain are unrestricted, because they never become a pattern. The replacement itself is always literal, because `quote` output holds no backslash.
- HttpYaml.SubstituteGrains: carries the same requirement on the names it substitutes as `Resolve`, for the same reason.
- HttpYaml.ExtPillar: carries the same requirement on the names it substitutes as `Resolve`, for the same reason.
- Percent.Unquote is the decoder for `quote`'s output, used to state the round trip. It is not Python's lenient `unquote`, which never fails: that function turns invalid UTF-8 into U+FFFD and passes stray `%` and non-ASCII text through. This decoder returns `None` in those cases and rejects overlong forms.
- Python 2: `six`'s `quote` and `str()` under Python 2, where non-ASCII text and the safe set differ, are not modelled. The model fixes Python 3 (3.7 or later, where `~` is unreserved).
- Grain values other than `None`, booleans, integers and strings (floats, lists, dictionaries) are `GrainValue.Other`. Only their truthiness and their `str()` text are carried, and the model does not compute those.
- The `pillar` argument (salt/pillar/http_yaml.py:66) is unused by the source, and `ExtPillar` ignores it as well.
- The decoded answer is the value type `Data` (null, scalar text, list, dictionary). YAML's other scalar types are represented as text.
- Python's `re` module in general is not modelled. Only the one pattern at line 81 is, and it is modelled as a scan whose semantics is proved. A `.` that does not match a newline is modelled literally: a newline ends the search for the `>`.
- Templates.PlaceholdersOfTemplate: the exact correspondence between placeholders and substitution is proved only for urls whose angle brackets delimit placeholders and nothing else. On other urls a substitution can bring together a new `<name>` that the walk, which uses the matches found before any substitution, never visits. For example, in `<ab><<ab>b>` with grain `ab` = `a`, the url becomes `a<ab>`.
