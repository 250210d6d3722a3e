/** The `http_yaml` external pillar: the url is resolved for a minion (its id for
    every `%s`, and, on request, its grains for every `<name>` placeholder), the
    resolved url is queried, and the `dict` entry of the decoded answer becomes the
    pillar. The grain store and the HTTP query are the host's services; they come
    in as functions. */
module HttpYaml {

  import opened Optional
  import opened Strings
  import opened Percent
  import opened Grains
  import opened GrainPattern
  import opened Templates

  /** The outcome of resolving the url: the url to query, or the first placeholder
      whose grain is missing or falsy, which ends the plugin with an empty pillar. */
  datatype Resolution = Resolved(url: string) | MissingGrain(name: string)

  /** A value the YAML decoder can produce. */
  datatype Data =
    | Null
    | Scalar(text: string)
    | List(items: seq<Data>)
    | Dict(entries: map<string, Data>)

  /** What `http.query` hands back: the decoded body under `dict`, next to other keys. */
  type Envelope = map<string, Data>

  /** The minion id's marker in the configured url. */
  const MinionMarker := "%s"

  /** Every `%s` in the url replaced by the percent-encoded minion id. */
  function Expand(url: string, minionId: string): string
  {
    ReplaceAll(url, MinionMarker, Quote(minionId))
  }

  /** The characters that make a grain name mean something else than itself once it is
      used as a regular expression. */
  predicate IsRegexLiteral(name: string)
  {
    forall k | 0 <= k < |name| :: name[k] !in ".^$*+?{}[]\\|()"
  }

  /** Every name the walk hands to `re.sub` (one reached with its own grain and
      every earlier one truthy) is free of regex metacharacters; names at or after
      the first falsy grain never become a pattern and may hold anything. */
  predicate SubstitutedAreRegexLiterals(names: seq<string>, grains: string -> GrainValue)
  {
    forall k | 0 <= k < |names| && (forall j | 0 <= j <= k :: Truthy(grains(names[j]))) :: IsRegexLiteral(names[k])
  }

  /** The percent-encoded `str()` of a grain value. */
  function GrainText(grains: string -> GrainValue): string -> string
  {
    n => Quote(Str(grains(n)))
  }

  /** Every `<name>` of the url replaced by the encoded grain value. */
  function Substitute(url: string, name: string, value: GrainValue): string
  {
    ReplaceAll(url, "<" + name + ">", Quote(Str(value)))
  }

  /** The placeholders handled in turn: a falsy grain stops the walk, a truthy one is
      substituted into the url. */
  function ResolveGrains(url: string, names: seq<string>, grains: string -> GrainValue): (r: Resolution)
    ensures r.MissingGrain? ==> r.name in names
    decreases |names|
  {
    if names == [] then Resolved(url)
    else
      var value := grains(names[0]);
      if !Truthy(value) then MissingGrain(names[0])
      else ResolveGrains(Substitute(url, names[0], value), names[1..], grains)
  }

  /** The grain names looked up while walking the placeholders: all of them up to and
      including the first falsy one. */
  function Lookups(names: seq<string>, grains: string -> GrainValue): (looked: seq<string>)
    ensures |looked| <= |names| && looked == names[..|looked|]
    decreases |names|
  {
    if names == [] then []
    else if !Truthy(grains(names[0])) then [names[0]]
    else
      var rest := Lookups(names[1..], grains);
      assert names[1..][..|rest|] == names[1..|rest| + 1];
      [names[0]] + rest
  }

  /** The whole resolution: the `%s` step, then, with grains requested, the walk over
      the placeholders the scan finds in the url as it stands after that step. */
  function ResolveUrl(url: string, minionId: string, withGrains: bool, grains: string -> GrainValue): Resolution
  {
    var expanded := Expand(url, minionId);
    if withGrains then ResolveGrains(expanded, Placeholders(expanded), grains)
    else Resolved(expanded)
  }

  /** The grain names the plugin asks the grain store for. */
  function LookupsFor(url: string, minionId: string, withGrains: bool, grains: string -> GrainValue): seq<string>
  {
    if withGrains then Lookups(Placeholders(Expand(url, minionId)), grains) else []
  }

  /** The url resolution of the plugin: the `%s` step, then, with grains requested, the
      placeholder walk. */
  method Resolve(url: string, minionId: string, withGrains: bool, grains: string -> GrainValue)
    returns (r: Resolution, looked: seq<string>)
    requires withGrains ==> SubstitutedAreRegexLiterals(Placeholders(Expand(url, minionId)), grains)
    ensures r == ResolveUrl(url, minionId, withGrains, grains)
    ensures looked == LookupsFor(url, minionId, withGrains, grains)
    ensures !withGrains ==> looked == [] && r == Resolved(Expand(url, minionId))
  {
    var expanded := Expand(url, minionId);
    if withGrains {
      r, looked := SubstituteGrains(expanded, Placeholders(expanded), grains);
    } else {
      r, looked := Resolved(expanded), [];
    }
  }

  /** The placeholder walk, step by step: the url is rebound on each placeholder, and a
      falsy grain returns at once. */
  method SubstituteGrains(url: string, names: seq<string>, grains: string -> GrainValue)
    returns (r: Resolution, looked: seq<string>)
    requires SubstitutedAreRegexLiterals(names, grains)
    ensures r == ResolveGrains(url, names, grains)
    ensures looked == Lookups(names, grains)
  {
    var current := url;
    var pending := names;
    looked := [];
    while pending != []
      invariant ResolveGrains(url, names, grains) == ResolveGrains(current, pending, grains)
      invariant Lookups(names, grains) == looked + Lookups(pending, grains)
      decreases |pending|
    {
      var name := pending[0];
      var value := grains(name);
      if !Truthy(value) {
        StepMissing(current, pending, grains);
        looked := looked + [name];
        return MissingGrain(name), looked;
      }
      StepTruthy(current, pending, grains);
      AppendAssoc(looked, [name], Lookups(pending[1..], grains));
      current := Substitute(current, name, value);
      looked := looked + [name];
      pending := pending[1..];
    }
    r := Resolved(current);
  }

  lemma StepMissing(url: string, names: seq<string>, grains: string -> GrainValue)
    requires names != [] && !Truthy(grains(names[0]))
    ensures ResolveGrains(url, names, grains) == MissingGrain(names[0])
    ensures Lookups(names, grains) == [names[0]]
  {
  }

  /** When the first grain is falsy nothing is handed to `re.sub`, so the url is
      accepted whatever its other placeholder names hold. */
  lemma FalsyFirstGrainSubstitutesNothing(names: seq<string>, grains: string -> GrainValue)
    requires names != [] && !Truthy(grains(names[0]))
    ensures SubstitutedAreRegexLiterals(names, grains)
  {
  }

  lemma StepTruthy(url: string, names: seq<string>, grains: string -> GrainValue)
    requires names != [] && Truthy(grains(names[0]))
    ensures ResolveGrains(url, names, grains)
         == ResolveGrains(Substitute(url, names[0], grains(names[0])), names[1..], grains)
    ensures Lookups(names, grains) == [names[0]] + Lookups(names[1..], grains)
  {
  }

  /** The pillar the plugin returns for a decoded answer: its `dict` entry when there is
      one, and the empty dictionary otherwise. */
  function Interpret(data: Envelope): (pillar: Data)
    ensures "dict" in data ==> pillar == data["dict"]
    ensures "dict" !in data ==> pillar == Dict(map[])
  {
    if "dict" in data then data["dict"] else Dict(map[])
  }

  /** Only the `dict` entry of the answer matters: any other key, added or changed,
      leaves the pillar as it was. */
  lemma InterpretIgnoresOtherKeys(data: Envelope, key: string, value: Data)
    requires key != "dict"
    ensures Interpret(data[key := value]) == Interpret(data)
    ensures Interpret(data - {key}) == Interpret(data)
  {
  }

  /** The plugin's entry point. `query` stands for the HTTP request and its YAML
      decoding; `requested` is the url it was asked for, if it was asked at all.
      `pillar` is the pillar compiled so far, which the plugin does not use. */
  method ExtPillar(minionId: string, pillar: Data, url: string, withGrains: bool,
                   grains: string -> GrainValue, query: string -> Envelope)
    returns (result: Data, requested: Option<string>, looked: seq<string>)
    requires withGrains ==> SubstitutedAreRegexLiterals(Placeholders(Expand(url, minionId)), grains)
    ensures looked == LookupsFor(url, minionId, withGrains, grains)
    ensures ResolveUrl(url, minionId, withGrains, grains).MissingGrain? ==>
              requested == None && result == Dict(map[])
    ensures ResolveUrl(url, minionId, withGrains, grains).Resolved? ==>
              requested == Some(ResolveUrl(url, minionId, withGrains, grains).url) &&
              result == Interpret(query(ResolveUrl(url, minionId, withGrains, grains).url))
  {
    var resolution;
    resolution, looked := Resolve(url, minionId, withGrains, grains);
    match resolution
    case MissingGrain(_) =>
      result, requested := Dict(map[]), None;
    case Resolved(u) =>
      var data := query(u);
      result, requested := Interpret(data), Some(u);
  }

  // The %s step

  /** Every `%s` of the url, found left to right, becomes the encoded minion id, and
      the text between the markers is kept as it was: the url is its marker-free
      pieces joined by `%s`, the expanded url the same pieces joined by the id. */
  lemma ExpandReplacesEveryMarker(url: string, minionId: string)
    ensures url == Join(Split(url, MinionMarker), MinionMarker)
    ensures Expand(url, minionId) == Join(Split(url, MinionMarker), Quote(minionId))
    ensures forall k | 0 <= k < |Split(url, MinionMarker)| :: !Occurs(MinionMarker, Split(url, MinionMarker)[k])
  {
    SplitJoinsBack(url, MinionMarker);
    ReplaceAllJoinsSplit(url, MinionMarker, Quote(minionId));
    SplitPiecesAreFree(url, MinionMarker);
  }

  /** A url without a `%` has no marker, and the `%s` step leaves it alone. */
  lemma ExpandWithoutPercent(url: string, minionId: string)
    requires '%' !in url
    ensures Expand(url, minionId) == url
  {
    assert !Occurs(MinionMarker, url) by {
      forall i | 0 <= i <= |url| ensures !(MinionMarker <= url[i..]) {
        if i < |url| { assert url[i..][0] == url[i]; }
      }
    }
    ReplaceAllAbsent(url, MinionMarker, Quote(minionId));
  }

  /** A url with no `%s` and no placeholder is queried exactly as configured, and no
      grain is looked up. */
  lemma PlainUrlIsUnchanged(url: string, minionId: string, withGrains: bool, grains: string -> GrainValue)
    requires !Occurs(MinionMarker, url) && Placeholders(url) == []
    ensures ResolveUrl(url, minionId, withGrains, grains) == Resolved(url)
    ensures LookupsFor(url, minionId, withGrains, grains) == []
  {
    ReplaceAllAbsent(url, MinionMarker, Quote(minionId));
  }

  // The placeholder walk

  /** Position `k` holds the first placeholder whose grain is falsy. */
  predicate FirstFalsy(names: seq<string>, grains: string -> GrainValue, k: int)
  {
    && 0 <= k < |names|
    && !Truthy(grains(names[k]))
    && forall j | 0 <= j < k :: Truthy(grains(names[j]))
  }

  /** The first falsy grain ends the walk: that name is reported, it is the last one
      looked up, and nothing after it is asked for. */
  lemma {:induction false} MissingGrainStops(url: string, names: seq<string>, grains: string -> GrainValue, k: int)
    requires FirstFalsy(names, grains, k)
    ensures ResolveGrains(url, names, grains) == MissingGrain(names[k])
    ensures Lookups(names, grains) == names[..k + 1]
    decreases |names|
  {
    if k == 0 {
      StepMissing(url, names, grains);
    } else {
      var value := grains(names[0]);
      assert Truthy(value);
      assert FirstFalsy(names[1..], grains, k - 1) by {
        forall j | 0 <= j < k - 1 ensures Truthy(grains(names[1..][j])) {
          assert names[1..][j] == names[j + 1];
        }
      }
      MissingGrainStops(Substitute(url, names[0], value), names[1..], grains, k - 1);
      StepTruthy(url, names, grains);
      assert names[..k + 1] == [names[0]] + names[1..][..k];
    }
  }

  /** Every placeholder's grain is truthy. */
  predicate AllTruthy(names: seq<string>, grains: string -> GrainValue)
  {
    forall k | 0 <= k < |names| :: Truthy(grains(names[k]))
  }

  lemma AllTruthyCons(names: seq<string>, grains: string -> GrainValue)
    requires names != []
    ensures AllTruthy(names, grains) <==> Truthy(grains(names[0])) && AllTruthy(names[1..], grains)
  {
    forall k | 0 <= k < |names[1..]| ensures names[1..][k] == names[k + 1] { }
  }

  /** The walk ends with a url exactly when every grain is truthy, and then every
      placeholder was looked up. */
  lemma {:induction false} ResolvedIffAllTruthy(url: string, names: seq<string>, grains: string -> GrainValue)
    ensures ResolveGrains(url, names, grains).Resolved? <==> AllTruthy(names, grains)
    ensures ResolveGrains(url, names, grains).Resolved? ==> Lookups(names, grains) == names
    decreases |names|
  {
    if names != [] {
      var value := grains(names[0]);
      AllTruthyCons(names, grains);
      if Truthy(value) {
        var rest := names[1..];
        ResolvedIffAllTruthy(Substitute(url, names[0], value), rest, grains);
        StepTruthy(url, names, grains);
        assert names == [names[0]] + rest;
      } else {
        StepMissing(url, names, grains);
      }
    }
  }

  /** A reported missing grain is the first falsy one. */
  lemma {:induction false} MissingGrainIsFirstFalsy(url: string, names: seq<string>, grains: string -> GrainValue)
    requires ResolveGrains(url, names, grains).MissingGrain?
    ensures exists k :: FirstFalsy(names, grains, k) && ResolveGrains(url, names, grains).name == names[k]
  {
    ResolvedIffAllTruthy(url, names, grains);
    var k :| 0 <= k < |names| && !Truthy(grains(names[k]));
    var first := LeastFalsy(names, grains, k);
    MissingGrainStops(url, names, grains, first);
  }

  /** Among positions with a falsy grain, the first. */
  lemma {:induction false} LeastFalsy(names: seq<string>, grains: string -> GrainValue, k: int) returns (first: int)
    requires 0 <= k < |names| && !Truthy(grains(names[k]))
    ensures FirstFalsy(names, grains, first) && first <= k
    decreases k
  {
    first := k;
    if j :| 0 <= j < k && !Truthy(grains(names[j])) {
      first := LeastFalsy(names, grains, j);
    }
  }

  // Well-formed templates

  /** Walking placeholders that include every hole of a well-formed template, with
      truthy grains, fills every hole with its encoded grain value. */
  lemma {:induction false} ResolveTemplate(ps: seq<Piece>, names: seq<string>, grains: string -> GrainValue)
    requires WellFormed(ps)
    requires forall n :: n in HoleNames(ps) ==> n in names
    requires forall k | 0 <= k < |names| :: Truthy(grains(names[k])) && '>' !in names[k]
    ensures ResolveGrains(Render(ps), names, grains) == Resolved(Render(Fill(ps, GrainText(grains))))
    decreases |names|
  {
    var f := GrainText(grains);
    if names == [] {
      HeadIsMember(HoleNames(ps));
      FillWithoutHoles(ps, f);
    } else {
      var n := names[0];
      var v := Quote(Str(grains(n)));
      var filled := FillName(ps, n, v);
      assert Substitute(Render(ps), n, grains(n)) == Render(filled) by {
        ReplaceRender(ps, n, v);
      }
      assert WellFormed(filled) && forall m :: m in HoleNames(filled) ==> m in names[1..] by {
        QuoteHasNoBrackets(Str(grains(n)));
        FillNameKeepsOthers(ps, n, v);
        assert names == [n] + names[1..];
      }
      TruthyTail(names, grains);
      ResolveTemplate(filled, names[1..], grains);
      assert Fill(filled, f) == Fill(ps, f) by {
        assert f(n) == v;
        FillNameThenFill(ps, n, f);
      }
      StepTruthy(Render(ps), names, grains);
    }
  }

  lemma TruthyTail(names: seq<string>, grains: string -> GrainValue)
    requires names != []
    requires forall k | 0 <= k < |names| :: Truthy(grains(names[k])) && '>' !in names[k]
    ensures forall k | 0 <= k < |names[1..]| :: Truthy(grains(names[1..][k])) && '>' !in names[1..][k]
  {
    forall k | 0 <= k < |names[1..]| ensures names[1..][k] == names[k + 1] { }
  }

  lemma HeadIsMember<T>(xs: seq<T>)
    ensures xs != [] ==> xs[0] in xs
  {
  }

  /** When the url after the `%s` step is a well-formed template whose holes all have
      truthy grains, every hole is looked up in order and filled with its encoded
      grain value, at each of its positions, and the url queried holds no placeholder. */
  lemma TemplateResolves(url: string, minionId: string, ps: seq<Piece>, grains: string -> GrainValue)
    requires Expand(url, minionId) == Render(ps) && WellFormed(ps)
    requires forall n :: n in HoleNames(ps) ==> Truthy(grains(n))
    ensures ResolveUrl(url, minionId, true, grains) == Resolved(Render(Fill(ps, GrainText(grains))))
    ensures LookupsFor(url, minionId, true, grains) == HoleNames(ps)
    ensures Placeholders(Render(Fill(ps, GrainText(grains)))) == []
  {
    var names := HoleNames(ps);
    var f := GrainText(grains);
    PlaceholdersOfTemplate(ps);
    HoleNamesHaveNoBrackets(ps);
    assert forall k | 0 <= k < |names| :: names[k] in names;
    ResolveTemplate(ps, names, grains);
    ResolvedIffAllTruthy(Render(ps), names, grains);
    forall n | n in names ensures '<' !in f(n) && '>' !in f(n) {
      QuoteHasNoBrackets(Str(grains(n)));
    }
    FillLeavesNoHoles(ps, f);
    PlaceholdersOfTemplate(Fill(ps, f));
  }
}
