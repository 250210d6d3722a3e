/** Worked cases of the url resolution: urls of a given shape around placeholders and
    markers. */
module Scenarios {

  import opened Strings
  import opened Percent
  import opened Grains
  import opened GrainPattern
  import opened Templates
  import opened HttpYaml

  /** Text that is neither a marker nor part of a placeholder. */
  predicate PlainText(t: string)
  {
    '<' !in t && '>' !in t && '%' !in t
  }

  /** A grain name that can stand between brackets. */
  predicate PlainName(n: string)
  {
    '<' !in n && '>' !in n && '\n' !in n && '%' !in n
  }

  /** A placeholder written twice is looked up once per occurrence, and both
      occurrences are replaced by the encoded value. */
  lemma RepeatedPlaceholder(a: string, b: string, n: string, minionId: string, grains: string -> GrainValue)
    requires PlainText(a) && PlainText(b) && PlainName(n) && Truthy(grains(n))
    ensures var hole := "<" + n + ">";
            var v := Quote(Str(grains(n)));
            && ResolveUrl(a + hole + b + hole, minionId, true, grains) == Resolved(a + v + b + v)
            && LookupsFor(a + hole + b + hole, minionId, true, grains) == [n, n]
  {
    var hole := "<" + n + ">";
    var url := a + hole + b + hole;
    var ps := [Lit(a), Hole(n), Lit(b), Hole(n)];
    TwoHoles(a, b, n, ps);
    assert Expand(url, minionId) == url by {
      PlainConcat(a, n, b);
      ExpandWithoutPercent(url, minionId);
    }
    var f := GrainText(grains);
    var v := Quote(Str(grains(n)));
    assert f(n) == v;
    TwoHolesFilled(a, b, n, ps, f, v);
    TemplateResolves(url, minionId, ps, grains);
  }

  lemma TwoHoles(a: string, b: string, n: string, ps: seq<Piece>)
    requires PlainText(a) && PlainText(b) && PlainName(n)
    requires ps == [Lit(a), Hole(n), Lit(b), Hole(n)]
    ensures Render(ps) == a + ("<" + n + ">") + b + ("<" + n + ">")
    ensures WellFormed(ps) && HoleNames(ps) == [n, n]
  {
    var hole := "<" + n + ">";
    RenderStep(ps, 3, hole, []);
    RenderStep(ps, 2, b, hole);
    RenderStep(ps, 1, hole, b + hole);
    RenderStep(ps, 0, a, hole + (b + hole));
    assert WellFormedPiece(Hole(n));
    HoleNamesCons(ps[3..]);
    HoleNamesCons(ps[2..]);
    HoleNamesCons(ps[1..]);
    HoleNamesCons(ps);
  }

  lemma TwoHolesFilled(a: string, b: string, n: string, ps: seq<Piece>, f: string -> string, v: string)
    requires ps == [Lit(a), Hole(n), Lit(b), Hole(n)] && f(n) == v
    ensures Render(Fill(ps, f)) == a + v + b + v
  {
    FillStep(ps, 3, f, v, []);
    FillStep(ps, 2, f, b, v);
    FillStep(ps, 1, f, v, b + v);
    FillStep(ps, 0, f, a, v + (b + v));
  }

  lemma PlainConcat(a: string, n: string, b: string)
    requires '%' !in a && '%' !in n && '%' !in b
    ensures '%' !in a + ("<" + n + ">") + b + ("<" + n + ">")
    ensures '%' !in a + ("<" + n + ">")
  {
  }

  lemma RenderStep(ps: seq<Piece>, i: nat, head: string, tail: string)
    requires i < |ps| && RenderPiece(ps[i]) == head && Render(ps[i + 1..]) == tail
    ensures Render(ps[i..]) == head + tail
  {
    assert ps[i..][1..] == ps[i + 1..];
  }

  lemma FillStep(ps: seq<Piece>, i: nat, f: string -> string, head: string, tail: string)
    requires i < |ps| && Render(Fill(ps[i + 1..], f)) == tail
    requires (ps[i].Lit? && head == ps[i].text) || (ps[i].Hole? && head == f(ps[i].name))
    ensures Render(Fill(ps[i..], f)) == head + tail
  {
    assert ps[i..][1..] == ps[i + 1..];
    var q := Fill(ps[i..], f);
    assert q[1..] == Fill(ps[i + 1..], f);
  }

  /** A single `%s` between marker-free text becomes the encoded minion id. */
  lemma MarkerBetweenText(a: string, b: string, minionId: string)
    requires '%' !in a && '%' !in b
    ensures Expand(a + MinionMarker + b, minionId) == a + Quote(minionId) + b
  {
    var pat := MinionMarker;
    var v := Quote(minionId);
    var rest := pat + b;
    assert a + pat + b == a + rest;
    assert ReplaceAll(a + rest, pat, v) == a + ReplaceAll(rest, pat, v) by {
      ReplaceAllSkip(a, rest, pat, v);
    }
    assert ReplaceAll(rest, pat, v) == v + ReplaceAll(b, pat, v) by {
      assert pat <= rest && rest[|pat|..] == b;
    }
    assert ReplaceAll(b, pat, v) == b by {
      ExpandWithoutPercent(b, minionId);
    }
  }

  /** `quote` turns a space into `%20` and leaves safe text on either side alone. */
  lemma SpaceIsEncoded(a: string, b: string)
    requires forall i | 0 <= i < |a| :: IsSafe(a[i])
    requires forall i | 0 <= i < |b| :: IsSafe(b[i])
    ensures Quote(a + " " + b) == a + "%20" + b
  {
    QuoteSafeIsIdentity(a);
    QuoteSafeIsIdentity(b);
    QuoteAppend(a + " ", b);
    QuoteAppend(a, " ");
    assert Quote(" ") == "%20" by {
      assert Utf8(' ') == [32];
      assert Utf8String(" ") == [32];
      assert EncodeBytes([32]) == "%20";
    }
  }

  /** A grain whose value is `0` counts as missing: it is the only lookup and the url
      is never resolved. */
  lemma ZeroGrainIsMissing(a: string, n: string, minionId: string, grains: string -> GrainValue)
    requires PlainText(a) && PlainName(n) && grains(n) == Int(0)
    ensures ResolveUrl(a + ("<" + n + ">"), minionId, true, grains) == MissingGrain(n)
    ensures LookupsFor(a + ("<" + n + ">"), minionId, true, grains) == [n]
  {
    var hole := "<" + n + ">";
    var url := a + hole;
    var ps := [Lit(a), Hole(n)];
    assert Placeholders(url) == [n] by {
      assert Render(ps) == url by {
        RenderStep(ps, 1, hole, []);
        RenderStep(ps, 0, a, hole);
      }
      assert WellFormed(ps) by {
        assert WellFormedPiece(Hole(n));
      }
      assert HoleNames(ps) == [n] by {
        HoleNamesCons(ps[1..]);
        HoleNamesCons(ps);
      }
      PlaceholdersOfTemplate(ps);
    }
    assert Expand(url, minionId) == url by {
      PlainConcat(a, n, []);
      ExpandWithoutPercent(url, minionId);
    }
    StepMissing(url, [n], grains);
  }

  /** The placeholders are found in the url as it stands after the `%s` step, so a
      `%s` between brackets makes the encoded minion id the name of a grain to look up. */
  lemma MinionIdNamesAGrain(minionId: string, grains: string -> GrainValue)
    ensures var q := Quote(minionId);
            && LookupsFor("<%s>", minionId, true, grains) == [q]
            && ResolveUrl("<%s>", minionId, true, grains)
               == if Truthy(grains(q)) then Resolved(Quote(Str(grains(q)))) else MissingGrain(q)
  {
    var q := Quote(minionId);
    var u := "<" + q + ">";
    assert Expand("<%s>", minionId) == u by {
      assert "<%s>" == "<" + MinionMarker + ">";
      MarkerBetweenText("<", ">", minionId);
    }
    var ps := [Hole(q)];
    OneHole(minionId, q, ps);
    if Truthy(grains(q)) {
      var f := GrainText(grains);
      assert Render(Fill(ps, f)) == f(q) by {
        FillStep(ps, 0, f, f(q), []);
      }
      TemplateResolves("<%s>", minionId, ps, grains);
    } else {
      PlaceholdersOfTemplate(ps);
      StepMissing(u, [q], grains);
    }
  }

  lemma OneHole(minionId: string, q: string, ps: seq<Piece>)
    requires q == Quote(minionId) && ps == [Hole(q)]
    ensures Render(ps) == "<" + q + ">" && WellFormed(ps) && HoleNames(ps) == [q]
  {
    RenderStep(ps, 0, "<" + q + ">", []);
    QuoteHasNoBrackets(minionId);
    WellEncodedChars(q);
    assert WellFormedPiece(Hole(q));
    HoleNamesCons(ps);
  }
}
