/** The `<name>` placeholders of a url, found the way `re.finditer(r'<(?P<grain_name>.*?)>', url)`
    finds them: scanning left to right, each `<` is closed by the first `>` after it
    unless a newline comes first (`.` does not match a newline), and the scan goes
    on after the `>`, so matches never overlap. */
module GrainPattern {

  import opened Optional
  import opened Strings

  /** A match: the positions of its `<` and of its `>`. */
  datatype Span = Span(open: nat, close: nat)

  /** `c` is where a name starting at `from` ends: the first `>` at or after `from`,
      with no newline before it. */
  ghost predicate ClosesFrom(s: string, from: nat, c: int)
  {
    && from <= c < |s|
    && s[c] == '>'
    && '>' !in s[from..c]
    && '\n' !in s[from..c]
  }

  /** `<` at `o` and `>` at `c` delimit a match of the lazy pattern. */
  ghost predicate Closes(s: string, o: nat, c: int)
  {
    o < |s| && s[o] == '<' && ClosesFrom(s, o + 1, c)
  }

  /** The `>` that ends a name starting at `from`, if the lazy pattern finds one. */
  function Close(s: string, from: nat): (r: Option<nat>)
    ensures r.Some? ==> from <= r.value < |s|
    decreases |s| - from
  {
    if from >= |s| then None
    else if s[from] == '>' then Some(from)
    else if s[from] == '\n' then None
    else Close(s, from + 1)
  }

  /** `Close` finds the end of the name exactly when the name has one. */
  lemma {:induction false} CloseIsLazy(s: string, from: nat)
    ensures Close(s, from).Some? ==> ClosesFrom(s, from, Close(s, from).value)
    ensures Close(s, from).None? ==> forall c :: !ClosesFrom(s, from, c)
    decreases |s| - from
  {
    if from < |s| && s[from] != '>' && s[from] != '\n' {
      CloseIsLazy(s, from + 1);
      assert forall c | ClosesFrom(s, from, c) :: ClosesFrom(s, from + 1, c);
      if Close(s, from).Some? {
        var c := Close(s, from).value;
        assert s[from..c] == [s[from]] + s[from + 1..c];
      }
    }
  }

  /** The matches `finditer` yields when it starts searching at position `i`. */
  function Scan(s: string, i: nat): (spans: seq<Span>)
    ensures forall k | 0 <= k < |spans| :: i <= spans[k].open < spans[k].close < |s|
    decreases |s| - i
  {
    if i >= |s| then []
    else if s[i] == '<' then
      match Close(s, i + 1)
      case Some(c) => [Span(i, c)] + Scan(s, c + 1)
      case None => Scan(s, i + 1)
    else Scan(s, i + 1)
  }

  /** The text of each match between its brackets: the `grain_name` group. */
  function NamesOf(s: string, spans: seq<Span>): seq<string>
    decreases |spans|
  {
    if spans == [] then [] else [NameAt(s, spans[0])] + NamesOf(s, spans[1..])
  }

  /** The text strictly between a span's brackets (empty for a span that does not
      fit in `s`, which the scan never produces). */
  function NameAt(s: string, span: Span): string
  {
    if span.open < span.close <= |s| then s[span.open + 1 .. span.close] else []
  }

  /** Scanning from `i` finds `names` and then exactly what scanning from `j` finds. */
  predicate Found(s: string, i: nat, names: seq<string>, j: nat)
  {
    NamesOf(s, Scan(s, i)) == names + NamesOf(s, Scan(s, j))
  }

  /** Two stretches of scanning, one after the other. */
  lemma FoundChain(s: string, i: nat, j: nat, k: nat, first: seq<string>, rest: seq<string>, whole: seq<string>)
    requires Found(s, i, first, j) && Found(s, j, rest, k) && whole == first + rest
    ensures Found(s, i, whole, k)
  {
    AppendAssoc(first, rest, NamesOf(s, Scan(s, k)));
  }

  /** Scanning from a position to itself finds nothing. */
  lemma FoundNothing(s: string, i: nat, names: seq<string>, j: nat)
    requires names == [] && j == i
    ensures Found(s, i, names, j)
  {
  }

  /** What scanning from the start finds up to the end of the url is all it finds. */
  lemma FoundToEnd(s: string, names: seq<string>, e: nat)
    requires Found(s, 0, names, e) && e == |s|
    ensures Placeholders(s) == names
  {
    assert Scan(s, e) == [];
  }

  /** The grain names of the url, in the order `finditer` yields them. */
  function Placeholders(url: string): seq<string>
  {
    NamesOf(url, Scan(url, 0))
  }

  /** What leftmost, lazy, non-overlapping matching means, stated without the scan:
      every span is a lazy match that starts at or after `i`, the spans are in
      order and do not overlap, and every `<` at or after `i` that could open a
      match lies inside one of the spans (it was either used or swallowed by an
      earlier match). */
  ghost predicate IsLazyScanFrom(s: string, i: nat, spans: seq<Span>)
  {
    MatchesFrom(s, i, spans) && InOrder(spans) && Exhaustive(s, i, spans)
  }

  /** Every span is a lazy match starting at or after `i`. */
  ghost predicate MatchesFrom(s: string, i: nat, spans: seq<Span>)
  {
    forall k | 0 <= k < |spans| :: i <= spans[k].open && Closes(s, spans[k].open, spans[k].close)
  }

  /** The spans come left to right and do not overlap. */
  ghost predicate InOrder(spans: seq<Span>)
  {
    forall k, l | 0 <= k < l < |spans| :: spans[k].close < spans[l].open
  }

  /** Every position at or after `i` that could open a match lies inside a span. */
  ghost predicate Exhaustive(s: string, i: nat, spans: seq<Span>)
  {
    forall o: nat | i <= o && CanOpen(s, o) :: Covered(spans, o)
  }

  /** Some `>` closes a match opened at `o`. */
  ghost predicate CanOpen(s: string, o: nat)
  {
    exists c :: Closes(s, o, c)
  }

  /** Position `o` lies within one of the spans, brackets included. */
  ghost predicate Covered(spans: seq<Span>, o: int)
  {
    exists k | 0 <= k < |spans| :: spans[k].open <= o <= spans[k].close
  }

  /** A match at `i` followed by a lazy scan from just after its `>` is a lazy scan from `i`. */
  lemma LazyScanCons(s: string, i: nat, c: nat, d: nat, rest: seq<Span>)
    requires Closes(s, i, c) && d == c + 1 && IsLazyScanFrom(s, d, rest)
    ensures IsLazyScanFrom(s, i, [Span(i, c)] + rest)
  {
    ConsMatches(s, i, c, d, rest);
    ConsInOrder(i, c, d, rest);
    ConsExhaustive(s, i, c, d, rest);
  }

  lemma ConsMatches(s: string, i: nat, c: nat, d: nat, rest: seq<Span>)
    requires Closes(s, i, c) && d == c + 1 && MatchesFrom(s, d, rest)
    ensures MatchesFrom(s, i, [Span(i, c)] + rest)
  {
    var spans := [Span(i, c)] + rest;
    forall k | 0 <= k < |spans| ensures i <= spans[k].open && Closes(s, spans[k].open, spans[k].close) {
      if k > 0 { assert spans[k] == rest[k - 1]; }
    }
  }

  lemma ConsInOrder(i: nat, c: nat, d: nat, rest: seq<Span>)
    requires d == c + 1 && InOrder(rest)
    requires forall k | 0 <= k < |rest| :: d <= rest[k].open
    ensures InOrder([Span(i, c)] + rest)
  {
    var spans := [Span(i, c)] + rest;
    forall k, l | 0 <= k < l < |spans| ensures spans[k].close < spans[l].open {
      assert spans[l] == rest[l - 1];
      if k > 0 { assert spans[k] == rest[k - 1]; }
    }
  }

  lemma ConsExhaustive(s: string, i: nat, c: nat, d: nat, rest: seq<Span>)
    requires i <= c && d == c + 1 && Exhaustive(s, d, rest)
    ensures Exhaustive(s, i, [Span(i, c)] + rest)
  {
    var spans := [Span(i, c)] + rest;
    forall o: nat | i <= o && CanOpen(s, o)
      ensures Covered(spans, o)
    {
      if o <= c {
        assert spans[0].open <= o <= spans[0].close;
      } else {
        var k :| 0 <= k < |rest| && rest[k].open <= o <= rest[k].close;
        assert spans[k + 1] == rest[k];
      }
    }
  }

  /** A position that cannot open a match adds nothing to a lazy scan. */
  lemma LazyScanSkip(s: string, i: nat, d: nat, spans: seq<Span>)
    requires !CanOpen(s, i) && d == i + 1
    requires IsLazyScanFrom(s, d, spans)
    ensures IsLazyScanFrom(s, i, spans)
  {
    forall o: nat | i <= o && CanOpen(s, o)
      ensures Covered(spans, o)
    {
      assert o != i;
    }
  }

  /** The scan finds exactly leftmost, lazy, non-overlapping matches. */
  lemma {:induction false} ScanIsLazy(s: string, i: nat)
    ensures IsLazyScanFrom(s, i, Scan(s, i))
    decreases |s| - i
  {
    if i >= |s| {
      forall o: nat | i <= o && CanOpen(s, o) ensures false { }
    } else if s[i] == '<' && Close(s, i + 1).Some? {
      var c := Close(s, i + 1).value;
      var d := c + 1;
      CloseIsLazy(s, i + 1);
      ScanIsLazy(s, d);
      LazyScanCons(s, i, c, d, Scan(s, d));
      ScanOpensAt(s, i, c, d);
    } else {
      var d := i + 1;
      ScanIsLazy(s, d);
      CloseIsLazy(s, i + 1);
      assert !CanOpen(s, i);
      LazyScanSkip(s, i, d, Scan(s, d));
      ScanPassesAt(s, i, d);
    }
  }

  /** A name has only one end. */
  lemma ClosesFromUnique(s: string, from: nat, c1: int, c2: int)
    requires ClosesFrom(s, from, c1) && ClosesFrom(s, from, c2)
    ensures c1 == c2
  {
  }

  /** When `i` opens a match, every lazy scan from `i` begins with that match. */
  lemma LazyScanHead(s: string, i: nat, c: nat, d: nat, spans: seq<Span>)
    requires Closes(s, i, c) && IsLazyScanFrom(s, i, spans) && d == c + 1
    ensures spans != [] && spans[0] == Span(i, c)
    ensures IsLazyScanFrom(s, d, spans[1..])
  {
    assert CanOpen(s, i);
    var k :| 0 <= k < |spans| && spans[k].open <= i <= spans[k].close;
    assert spans[0].open == i;
    ClosesFromUnique(s, i + 1, c, spans[0].close);
    var rest := spans[1..];
    assert Exhaustive(s, d, rest) by {
      forall o: nat | d <= o && CanOpen(s, o)
        ensures Covered(rest, o)
      {
        var j :| 0 <= j < |spans| && spans[j].open <= o <= spans[j].close;
        assert j != 0;
        assert rest[j - 1] == spans[j];
      }
    }
    assert MatchesFrom(s, d, rest) by {
      forall k | 0 <= k < |rest| ensures d <= rest[k].open && Closes(s, rest[k].open, rest[k].close) {
        assert rest[k] == spans[k + 1];
        assert spans[0].close < spans[k + 1].open;
      }
    }
    assert InOrder(rest) by {
      forall k, l | 0 <= k < l < |rest| ensures rest[k].close < rest[l].open {
        assert rest[k] == spans[k + 1] && rest[l] == spans[l + 1];
      }
    }
  }

  /** When `i` opens no match, a lazy scan from `i` is one from `i + 1`. */
  lemma LazyScanTail(s: string, i: nat, d: nat, spans: seq<Span>)
    requires !CanOpen(s, i) && d == i + 1
    requires IsLazyScanFrom(s, i, spans)
    ensures IsLazyScanFrom(s, d, spans)
  {
    forall k | 0 <= k < |spans| ensures d <= spans[k].open {
      assert Closes(s, spans[k].open, spans[k].close);
    }
  }

  /** A lazy scan that finds anything starts inside the text. */
  lemma LazyScanStartsInside(s: string, i: nat, spans: seq<Span>)
    requires IsLazyScanFrom(s, i, spans)
    ensures |spans| > 0 ==> i < |s|
  {
    if |spans| > 0 {
      assert i <= spans[0].open && Closes(s, spans[0].open, spans[0].close);
    }
  }

  /** Leftmost, lazy, non-overlapping matching leaves no choice: any spans with the
      properties of `IsLazyScanFrom` are the ones the scan finds. */
  lemma {:induction false} LazyScanIsUnique(s: string, i: nat, spans: seq<Span>)
    requires IsLazyScanFrom(s, i, spans)
    ensures spans == Scan(s, i)
    decreases |s| - i
  {
    LazyScanStartsInside(s, i, spans);
    if i >= |s| {
    } else if s[i] == '<' && Close(s, i + 1).Some? {
      var c := Close(s, i + 1).value;
      var d := c + 1;
      CloseIsLazy(s, i + 1);
      LazyScanHead(s, i, c, d, spans);
      LazyScanIsUnique(s, d, spans[1..]);
      ScanOpensAt(s, i, c, d);
      FirstAndRest(spans, Span(i, c), Scan(s, d), Scan(s, i));
    } else {
      var d := i + 1;
      CloseIsLazy(s, i + 1);
      assert !CanOpen(s, i);
      LazyScanTail(s, i, d, spans);
      LazyScanIsUnique(s, d, spans);
      ScanPassesAt(s, i, d);
    }
  }

  /** At a `<` that some `>` closes, the scan takes that match and goes on after it. */
  lemma ScanOpensAt(s: string, i: nat, c: nat, d: nat)
    requires i < |s| && s[i] == '<' && Close(s, i + 1) == Some(c) && d == c + 1
    ensures Scan(s, i) == [Span(i, c)] + Scan(s, d)
  {
  }

  /** Anywhere else the scan moves on by one position. */
  lemma ScanPassesAt(s: string, i: nat, d: nat)
    requires i < |s| && !(s[i] == '<' && Close(s, i + 1).Some?) && d == i + 1
    ensures Scan(s, i) == Scan(s, d)
  {
  }

  /** A sequence is its first element followed by the rest. */
  lemma FirstAndRest(spans: seq<Span>, first: Span, rest: seq<Span>, whole: seq<Span>)
    requires spans != [] && spans[0] == first && spans[1..] == rest && whole == [first] + rest
    ensures spans == whole
  {
    assert spans == [spans[0]] + spans[1..];
  }

  /** Each name is the text strictly between its span's brackets. */
  lemma {:induction false} NamesOfSpans(s: string, spans: seq<Span>)
    requires forall k | 0 <= k < |spans| :: spans[k].open < spans[k].close < |s|
    requires forall k | 0 <= k < |spans| :: Closes(s, spans[k].open, spans[k].close)
    ensures |NamesOf(s, spans)| == |spans|
    ensures forall k | 0 <= k < |spans| ::
      NamesOf(s, spans)[k] == s[spans[k].open + 1 .. spans[k].close]
      && '>' !in NamesOf(s, spans)[k] && '\n' !in NamesOf(s, spans)[k]
    decreases |spans|
  {
    if spans != [] {
      var rest := spans[1..];
      NamesOfSpans(s, rest);
      var name := s[spans[0].open + 1 .. spans[0].close];
      assert '>' !in name && '\n' !in name by {
        assert ClosesFrom(s, spans[0].open + 1, spans[0].close);
      }
      var names := NamesOf(s, spans);
      assert names == [name] + NamesOf(s, rest);
      forall k | 1 <= k < |spans|
        ensures names[k] == s[spans[k].open + 1 .. spans[k].close]
      {
        assert names[k] == NamesOf(s, rest)[k - 1] && spans[k] == rest[k - 1];
      }
    }
  }

  /** The names of a url are exactly the texts between the brackets of its
      leftmost, lazy, non-overlapping matches, and none holds `>` or a newline. */
  lemma PlaceholdersAreLazyMatches(url: string)
    ensures IsLazyScanFrom(url, 0, Scan(url, 0))
    ensures |Placeholders(url)| == |Scan(url, 0)|
    ensures forall k | 0 <= k < |Scan(url, 0)| ::
      Placeholders(url)[k] == url[Scan(url, 0)[k].open + 1 .. Scan(url, 0)[k].close]
      && '>' !in Placeholders(url)[k] && '\n' !in Placeholders(url)[k]
  {
    ScanIsLazy(url, 0);
    NamesOfSpans(url, Scan(url, 0));
  }

  /** Positions free of `<` open no match, so the scan passes over them. */
  lemma {:induction false} ScanSkip(s: string, i: nat, j: nat)
    requires i <= j <= |s| && '<' !in s[i..j]
    ensures Scan(s, i) == Scan(s, j)
    decreases j - i
  {
    if i < j {
      assert s[i] == s[i..j][0];
      assert s[i + 1..j] == s[i..j][1..];
      ScanSkip(s, i + 1, j);
    }
  }

  /** A `<name>` at `i`, with a name free of `>` and newline, is the match found at `i`. */
  lemma ScanAtPlaceholder(s: string, i: nat, name: string, j: nat)
    requires j == i + |name| + 2 && j <= |s|
    requires s[i] == '<' && s[i + 1 .. i + 1 + |name|] == name && s[i + 1 + |name|] == '>'
    requires '>' !in name && '\n' !in name
    ensures Scan(s, i) == [Span(i, i + 1 + |name|)] + Scan(s, j)
    ensures Found(s, i, [name], j)
  {
    var c := i + 1 + |name|;
    assert ClosesFrom(s, i + 1, c);
    CloseIsLazy(s, i + 1);
    ClosesFromUnique(s, i + 1, c, Close(s, i + 1).value);
    ScanOpensAt(s, i, c, j);
    NamesOfCons(s, Span(i, c), Scan(s, j));
  }

  lemma NamesOfCons(s: string, span: Span, rest: seq<Span>)
    ensures NamesOf(s, [span] + rest) == [NameAt(s, span)] + NamesOf(s, rest)
  {
    assert ([span] + rest)[1..] == rest;
  }
}
