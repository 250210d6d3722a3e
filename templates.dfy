/** Well-formed url templates: literal text and `<name>` placeholders, with angle
    brackets used for nothing else. On such a url the lazy scan finds exactly the
    placeholders, and replacing one `<name>` touches exactly those placeholders. */
module Templates {

  import opened Strings
  import opened GrainPattern

  datatype Piece = Lit(text: string) | Hole(name: string)

  /** Brackets appear only as the delimiters of holes, and a hole's name holds no newline. */
  predicate WellFormed(ps: seq<Piece>)
  {
    forall k | 0 <= k < |ps| :: WellFormedPiece(ps[k])
  }

  predicate WellFormedPiece(p: Piece)
  {
    match p
    case Lit(t) => '<' !in t && '>' !in t
    case Hole(n) => '<' !in n && '>' !in n && '\n' !in n
  }

  function RenderPiece(p: Piece): string
  {
    match p
    case Lit(t) => t
    case Hole(n) => "<" + n + ">"
  }

  /** The url text of a template. */
  function Render(ps: seq<Piece>): string
    decreases |ps|
  {
    if ps == [] then [] else RenderPiece(ps[0]) + Render(ps[1..])
  }

  /** The names of the holes, left to right. */
  function HoleNames(ps: seq<Piece>): seq<string>
    decreases |ps|
  {
    if ps == [] then [] else PieceNames(ps[0]) + HoleNames(ps[1..])
  }

  function PieceNames(p: Piece): seq<string>
  {
    match p
    case Lit(_) => []
    case Hole(n) => [n]
  }

  /** Every hole named `name` made literal text `value`. */
  function FillName(ps: seq<Piece>, name: string, value: string): seq<Piece>
    decreases |ps|
  {
    if ps == [] then []
    else
      var p := if ps[0] == Hole(name) then Lit(value) else ps[0];
      [p] + FillName(ps[1..], name, value)
  }

  /** A slice that equals a concatenation splits into slices equal to its parts. */
  lemma SliceOfConcat(s: string, i: nat, a: string, b: string)
    requires i + |a| + |b| <= |s| && s[i .. i + |a + b|] == a + b
    ensures s[i .. i + |a|] == a && s[i + |a| .. i + |a| + |b|] == b
  {
    var whole := s[i .. i + |a + b|];
    assert s[i .. i + |a|] == whole[.. |a|];
    assert s[i + |a| .. i + |a| + |b|] == whole[|a| ..];
  }

  /** Scanning one well-formed piece embedded at `i` yields its name, if it is a hole. */
  lemma ScanPiece(s: string, i: nat, p: Piece, j: nat)
    requires WellFormedPiece(p) && At(s, i, RenderPiece(p)) && j == i + |RenderPiece(p)|
    ensures Found(s, i, PieceNames(p), j)
  {
    match p
    case Lit(t) =>
      ScanLit(s, i, t, j);
    case Hole(n) =>
      ScanHole(s, i, n, j);
  }

  /** Literal text embedded at `i` holds no match. */
  lemma ScanLit(s: string, i: nat, t: string, j: nat)
    requires '<' !in t && At(s, i, t) && j == i + |t|
    ensures Found(s, i, [], j)
  {
    AtIsSlice(s, i, t);
    ScanSkip(s, i, j);
  }

  /** A `<name>` embedded at `i` is the next match, and its name is the next name. */
  lemma ScanHole(s: string, i: nat, n: string, j: nat)
    requires '<' !in n && '>' !in n && '\n' !in n
    requires At(s, i, "<" + n + ">") && j == i + |n| + 2
    ensures Found(s, i, [n], j)
  {
    var r := "<" + n + ">";
    AtIsSlice(s, i, r);
    var w := s[i .. i + |n| + 2];
    assert w == r;
    forall t | 0 <= t < |n| ensures s[i + 1 + t] == n[t] {
      assert s[i + 1 + t] == w[1 + t] == r[1 + t];
    }
    assert s[i + 1 .. i + 1 + |n|] == n;
    assert s[i] == w[0] && s[i + 1 + |n|] == w[1 + |n|];
    ScanAtPlaceholder(s, i, n, j);
  }

  /** The pieces of `ps` appear in `s` one after another, the first at `i`. */
  predicate Embedded(s: string, i: nat, ps: seq<Piece>)
    decreases |ps|
  {
    if ps == [] then true
    else
      var t := RenderPiece(ps[0]);
      At(s, i, t) && Embedded(s, i + |t|, ps[1..])
  }

  /** `t` occurs in `s` at position `i`. */
  predicate At(s: string, i: nat, t: string)
    decreases |t|
  {
    if t == [] then i <= |s| else i < |s| && s[i] == t[0] && At(s, i + 1, t[1..])
  }

  lemma {:induction false} AtIsSlice(s: string, i: nat, t: string)
    requires At(s, i, t)
    ensures i + |t| <= |s| && s[i .. i + |t|] == t
    decreases |t|
  {
    if t != [] {
      AtIsSlice(s, i + 1, t[1..]);
      assert s[i .. i + |t|] == [s[i]] + s[i + 1 .. i + |t|];
      assert t == [t[0]] + t[1..];
    }
  }

  lemma {:induction false} SliceIsAt(s: string, i: nat, t: string)
    requires i + |t| <= |s| && s[i .. i + |t|] == t
    ensures At(s, i, t)
    decreases |t|
  {
    if t != [] {
      assert s[i] == t[0];
      assert s[i + 1 .. i + |t|] == t[1..];
      SliceIsAt(s, i + 1, t[1..]);
    }
  }

  /** A rendered template is embedded piece by piece in any text that contains it. */
  lemma {:induction false} RenderIsEmbedded(pre: string, ps: seq<Piece>, post: string)
    ensures Embedded(pre + Render(ps) + post, |pre|, ps)
    decreases |ps|
  {
    if ps != [] {
      var head := RenderPiece(ps[0]);
      var tail := Render(ps[1..]);
      var s := pre + Render(ps) + post;
      var pre' := pre + head;
      assert s == pre' + tail + post by {
        assert Render(ps) == head + tail;
      }
      RenderIsEmbedded(pre', ps[1..], post);
      assert s[|pre| .. |pre| + |head|] == head;
      SliceIsAt(s, |pre|, head);
      EmbeddedCons(s, |pre|, ps, |pre'|);
    }
  }

  lemma EmbeddedCons(s: string, i: nat, ps: seq<Piece>, j: nat)
    requires ps != [] && At(s, i, RenderPiece(ps[0])) && j == i + |RenderPiece(ps[0])|
    requires Embedded(s, j, ps[1..])
    ensures Embedded(s, i, ps)
  {
  }

  /** Scanning a template embedded at `i` and ending at `e` yields its hole names,
      then whatever follows. */
  lemma {:induction false} ScanRender(s: string, i: nat, ps: seq<Piece>, e: nat)
    requires WellFormed(ps) && Embedded(s, i, ps) && e == i + |Render(ps)|
    ensures Found(s, i, HoleNames(ps), e)
    decreases |ps|
  {
    if ps != [] {
      var j := i + |RenderPiece(ps[0])|;
      assert WellFormedPiece(ps[0]);
      ScanPiece(s, i, ps[0], j);
      assert WellFormed(ps[1..]) by {
        forall t | 0 <= t < |ps[1..]| ensures ps[1..][t] == ps[t + 1] { }
      }
      RenderCons(ps);
      ScanRender(s, j, ps[1..], e);
      HoleNamesCons(ps);
      FoundChain(s, i, j, e, PieceNames(ps[0]), HoleNames(ps[1..]), HoleNames(ps));
    } else {
      FoundNothing(s, i, HoleNames(ps), e);
    }
  }

  lemma RenderCons(ps: seq<Piece>)
    requires ps != []
    ensures |Render(ps)| == |RenderPiece(ps[0])| + |Render(ps[1..])|
  {
  }

  lemma HoleNamesCons(ps: seq<Piece>)
    requires ps != []
    ensures HoleNames(ps) == PieceNames(ps[0]) + HoleNames(ps[1..])
  {
  }

  /** The placeholders of a well-formed template are its holes, in order. */
  lemma PlaceholdersOfTemplate(ps: seq<Piece>)
    requires WellFormed(ps)
    ensures Placeholders(Render(ps)) == HoleNames(ps)
  {
    RenderAloneIsEmbedded(ps);
    ScanRender(Render(ps), 0, ps, |Render(ps)|);
    FoundToEnd(Render(ps), HoleNames(ps), |Render(ps)|);
  }

  lemma RenderAloneIsEmbedded(ps: seq<Piece>)
    ensures Embedded(Render(ps), 0, ps)
  {
    var empty: string := [];
    assert empty + Render(ps) + empty == Render(ps);
    RenderIsEmbedded(empty, ps, empty);
  }

  /** Every hole made literal text, the text for a hole named `n` being `f(n)`. */
  function Fill(ps: seq<Piece>, f: string -> string): seq<Piece>
    decreases |ps|
  {
    if ps == [] then []
    else
      var p := match ps[0] case Lit(t) => Lit(t) case Hole(n) => Lit(f(n));
      [p] + Fill(ps[1..], f)
  }

  lemma WellFormedCons(ps: seq<Piece>)
    requires WellFormed(ps) && ps != []
    ensures WellFormedPiece(ps[0]) && WellFormed(ps[1..])
  {
    assert WellFormedPiece(ps[0]);
    forall t | 0 <= t < |ps[1..]| ensures WellFormedPiece(ps[1..][t]) {
      assert ps[1..][t] == ps[t + 1];
    }
  }

  /** A `<name>` never starts where a hole with another bracket-free name is written. */
  lemma OtherHoleIsNoMatch(n: string, m: string, rest: string)
    requires n != m && '>' !in n && '>' !in m
    ensures !("<" + n + ">" <= "<" + m + ">" + rest)
  {
    var pat := "<" + n + ">";
    var s := "<" + m + ">" + rest;
    if |n| < |m| {
      assert pat[1 + |n|] != s[1 + |n|];
    } else if |m| < |n| {
      assert pat[1 + |m|] != s[1 + |m|];
    } else {
      var k :| 0 <= k < |n| && n[k] != m[k];
      assert pat[1 + k] != s[1 + k];
    }
  }

  /** Replacing `<name>` in one rendered piece followed by more text. */
  lemma ReplacePiece(p: Piece, rest: string, name: string, value: string)
    requires WellFormedPiece(p) && '>' !in name
    ensures ReplaceAll(RenderPiece(p) + rest, "<" + name + ">", value)
         == RenderPiece(if p == Hole(name) then Lit(value) else p) + ReplaceAll(rest, "<" + name + ">", value)
  {
    var pat := "<" + name + ">";
    match p
    case Lit(t) =>
      ReplaceAllSkip(t, rest, pat, value);
    case Hole(m) =>
      var s := RenderPiece(p) + rest;
      if m == name {
        assert pat <= s && s[|pat|..] == rest;
      } else {
        OtherHoleIsNoMatch(name, m, rest);
        var after := m + ">";
        assert s == "<" + (after + rest);
        assert s[1..] == after + rest;
        ReplaceAllSkip(after, rest, pat, value);
      }
  }

  lemma FillNameCons(ps: seq<Piece>, name: string, value: string)
    requires ps != []
    ensures Render(FillName(ps, name, value))
         == RenderPiece(if ps[0] == Hole(name) then Lit(value) else ps[0]) + Render(FillName(ps[1..], name, value))
  {
    var f := FillName(ps, name, value);
    assert f[1..] == FillName(ps[1..], name, value);
  }

  /** On a well-formed template, replacing every `<name>` fills exactly the holes
      called `name` and leaves all other text as it was. */
  lemma {:induction false} ReplaceRender(ps: seq<Piece>, name: string, value: string)
    requires WellFormed(ps) && '>' !in name
    ensures ReplaceAll(Render(ps), "<" + name + ">", value) == Render(FillName(ps, name, value))
    decreases |ps|
  {
    if ps != [] {
      WellFormedCons(ps);
      ReplaceRender(ps[1..], name, value);
      assert Render(ps) == RenderPiece(ps[0]) + Render(ps[1..]);
      ReplacePiece(ps[0], Render(ps[1..]), name, value);
      FillNameCons(ps, name, value);
    }
  }

  /** Filling the holes called `name` with bracket-free text keeps the template well
      formed and leaves exactly the holes with other names. */
  lemma {:induction false} FillNameKeepsOthers(ps: seq<Piece>, name: string, value: string)
    requires WellFormed(ps) && '<' !in value && '>' !in value
    ensures WellFormed(FillName(ps, name, value))
    ensures forall n :: n in HoleNames(FillName(ps, name, value)) <==> n in HoleNames(ps) && n != name
    decreases |ps|
  {
    var f := FillName(ps, name, value);
    if ps != [] {
      WellFormedCons(ps);
      FillNameKeepsOthers(ps[1..], name, value);
      var p := if ps[0] == Hole(name) then Lit(value) else ps[0];
      assert f == [p] + FillName(ps[1..], name, value);
      assert f[0] == p && f[1..] == FillName(ps[1..], name, value);
      HoleNamesCons(ps);
      HoleNamesCons(f);
      forall t | 0 <= t < |f| ensures WellFormedPiece(f[t]) {
        if t > 0 { assert f[t] == f[1..][t - 1]; }
      }
    }
  }

  /** Filling the holes called `name` with the text `Fill` would give them changes
      nothing `Fill` then produces. */
  lemma {:induction false} FillNameThenFill(ps: seq<Piece>, name: string, f: string -> string)
    ensures Fill(FillName(ps, name, f(name)), f) == Fill(ps, f)
    decreases |ps|
  {
    if ps != [] {
      FillNameThenFill(ps[1..], name, f);
      var q := FillName(ps, name, f(name));
      assert q[1..] == FillName(ps[1..], name, f(name));
    }
  }

  /** A template without holes is left as it is by `Fill`. */
  lemma {:induction false} FillWithoutHoles(ps: seq<Piece>, f: string -> string)
    requires HoleNames(ps) == []
    ensures Fill(ps, f) == ps
    decreases |ps|
  {
    if ps != [] {
      HoleNamesCons(ps);
      assert ps[0].Lit?;
      FillWithoutHoles(ps[1..], f);
    }
  }

  /** Filling every hole with bracket-free text leaves a well-formed template with no
      holes: its text holds no placeholder. */
  lemma {:induction false} FillLeavesNoHoles(ps: seq<Piece>, f: string -> string)
    requires WellFormed(ps)
    requires forall n :: n in HoleNames(ps) ==> '<' !in f(n) && '>' !in f(n)
    ensures WellFormed(Fill(ps, f)) && HoleNames(Fill(ps, f)) == []
    decreases |ps|
  {
    var q := Fill(ps, f);
    if ps != [] {
      WellFormedCons(ps);
      HoleNamesCons(ps);
      FillLeavesNoHoles(ps[1..], f);
      assert q[1..] == Fill(ps[1..], f);
      HoleNamesCons(q);
      forall t | 0 <= t < |q| ensures WellFormedPiece(q[t]) {
        if t > 0 { assert q[t] == q[1..][t - 1]; }
      }
    }
  }

  /** The names of a well-formed template's holes carry no angle bracket. */
  lemma {:induction false} HoleNamesHaveNoBrackets(ps: seq<Piece>)
    requires WellFormed(ps)
    ensures forall n :: n in HoleNames(ps) ==> '<' !in n && '>' !in n
    decreases |ps|
  {
    if ps != [] {
      WellFormedCons(ps);
      HoleNamesCons(ps);
      HoleNamesHaveNoBrackets(ps[1..]);
    }
  }
}
