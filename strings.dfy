/** Literal search-and-replace on strings, as Python's `str.replace` (and `re.sub`
    with a pattern free of metacharacters) performs it: occurrences are found left
    to right and never overlap. */
module Strings {

  /** Concatenation regrouped. */
  lemma AppendAssoc<T>(a: seq<T>, b: seq<T>, c: seq<T>)
    ensures a + (b + c) == (a + b) + c
  {
  }

  /** `pat` occurs somewhere in `s`. */
  predicate Occurs(pat: string, s: string)
  {
    exists i | 0 <= i <= |s| :: pat <= s[i..]
  }

  /** Every occurrence of `pat` in `s`, scanning left to right without overlap,
      replaced by `rep`. */
  function ReplaceAll(s: string, pat: string, rep: string): string
    requires |pat| > 0
    decreases |s|
  {
    if s == [] then []
    else if pat <= s then rep + ReplaceAll(s[|pat|..], pat, rep)
    else [s[0]] + ReplaceAll(s[1..], pat, rep)
  }

  /** The text between the occurrences `ReplaceAll` consumes: one more piece
      than there are occurrences. */
  function Split(s: string, pat: string): (pieces: seq<string>)
    requires |pat| > 0
    ensures |pieces| >= 1
    decreases |s|
  {
    if s == [] then [[]]
    else if pat <= s then [[]] + Split(s[|pat|..], pat)
    else
      var rest := Split(s[1..], pat);
      [[s[0]] + rest[0]] + rest[1..]
  }

  /** The pieces glued together with `sep` between consecutive pieces. */
  function Join(pieces: seq<string>, sep: string): string
    requires |pieces| >= 1
    decreases |pieces|
  {
    if |pieces| == 1 then pieces[0] else pieces[0] + sep + Join(pieces[1..], sep)
  }

  /** The first piece of a split is a prefix of the string that was split. */
  lemma {:induction false} SplitHeadIsPrefix(s: string, pat: string)
    requires |pat| > 0
    ensures Split(s, pat)[0] <= s
    decreases |s|
  {
    if s != [] && !(pat <= s) {
      SplitHeadIsPrefix(s[1..], pat);
    }
  }

  /** The first piece of a split does not start with `pat` when the string does not. */
  lemma PrefixOfPrefix(pat: string, piece: string, s: string)
    requires piece <= s && pat <= piece
    ensures pat <= s
  {
  }

  /** Joining a piece in front of at least one more piece puts `sep` between them. */
  lemma JoinCons(head: string, rest: seq<string>, sep: string)
    requires |rest| >= 1
    ensures Join([head] + rest, sep) == head + sep + Join(rest, sep)
  {
    assert ([head] + rest)[1..] == rest;
  }

  /** Splitting at `pat` loses nothing: joining the pieces with `pat` gives `s` back. */
  lemma {:induction false} SplitJoinsBack(s: string, pat: string)
    requires |pat| > 0
    ensures Join(Split(s, pat), pat) == s
    decreases |s|
  {
    if s == [] {
    } else if pat <= s {
      var tail := s[|pat|..];
      SplitJoinsBack(tail, pat);
      JoinCons([], Split(tail, pat), pat);
      assert s == pat + tail;
    } else {
      var tail := s[1..];
      SplitJoinsBack(tail, pat);
      JoinPrepend([s[0]], Split(tail, pat), pat);
      assert s == [s[0]] + tail;
    }
  }

  /** Text put in front of the first piece ends up in front of the joined string. */
  lemma JoinPrepend(x: string, pieces: seq<string>, sep: string)
    requires |pieces| >= 1
    ensures Join([x + pieces[0]] + pieces[1..], sep) == x + Join(pieces, sep)
  {
    if |pieces| > 1 {
      JoinCons(x + pieces[0], pieces[1..], sep);
      JoinCons(pieces[0], pieces[1..], sep);
      assert pieces == [pieces[0]] + pieces[1..];
    }
  }

  /** `ReplaceAll` is the split pieces joined with `rep`: every occurrence the split
      consumed is replaced, and the text between occurrences is kept as it was. */
  lemma {:induction false} ReplaceAllJoinsSplit(s: string, pat: string, rep: string)
    requires |pat| > 0
    ensures ReplaceAll(s, pat, rep) == Join(Split(s, pat), rep)
    decreases |s|
  {
    if s != [] {
      if pat <= s {
        ReplaceAllJoinsSplit(s[|pat|..], pat, rep);
        JoinCons([], Split(s[|pat|..], pat), rep);
      } else {
        var rest := Split(s[1..], pat);
        ReplaceAllJoinsSplit(s[1..], pat, rep);
        JoinPrepend([s[0]], rest, rep);
        assert Split(s, pat) == [[s[0]] + rest[0]] + rest[1..];
      }
    }
  }

  /** No piece of a split contains `pat`: the scan leaves no occurrence behind. */
  lemma {:induction false} SplitPiecesAreFree(s: string, pat: string)
    requires |pat| > 0
    ensures forall k | 0 <= k < |Split(s, pat)| :: !Occurs(pat, Split(s, pat)[k])
    decreases |s|
  {
    var empty: string := [];
    assert !Occurs(pat, empty) by {
      assert empty[0..] == empty;
    }
    if s != [] {
      if pat <= s {
        SplitPiecesAreFree(s[|pat|..], pat);
        assert Split(s, pat) == [empty] + Split(s[|pat|..], pat);
      } else {
        var tail := s[1..];
        SplitPiecesAreFree(tail, pat);
        SplitHeadIsPrefix(tail, pat);
        var rest := Split(tail, pat);
        var head := [s[0]] + rest[0];
        assert Split(s, pat) == [head] + rest[1..];
        assert head <= s;
        assert !Occurs(pat, head) by {
          forall i | 0 <= i <= |head| ensures !(pat <= head[i..]) {
            if i == 0 {
              if pat <= head { PrefixOfPrefix(pat, head, s); }
            } else {
              assert head[i..] == rest[0][i - 1..];
              assert !Occurs(pat, rest[0]);
            }
          }
        }
      }
    }
  }

  /** A string in which `pat` does not occur comes back from `ReplaceAll` unchanged. */
  lemma {:induction false} ReplaceAllAbsent(s: string, pat: string, rep: string)
    requires |pat| > 0 && !Occurs(pat, s)
    ensures ReplaceAll(s, pat, rep) == s
    decreases |s|
  {
    if s != [] {
      assert s[0..] == s;
      assert !Occurs(pat, s[1..]) by {
        forall i | 0 <= i <= |s[1..]| ensures !(pat <= s[1..][i..]) {
          assert s[1..][i..] == s[i + 1..];
        }
      }
      ReplaceAllAbsent(s[1..], pat, rep);
    }
  }

  /** A prefix free of the pattern's first character passes through `ReplaceAll`
      untouched. */
  lemma {:induction false} ReplaceAllSkip(a: string, b: string, pat: string, rep: string)
    requires |pat| > 0 && pat[0] !in a
    ensures ReplaceAll(a + b, pat, rep) == a + ReplaceAll(b, pat, rep)
    decreases |a|
  {
    if a != [] {
      assert a == [a[0]] + a[1..];
      assert (a + b)[0] == a[0];
      assert !(pat <= a + b);
      assert (a + b)[1..] == a[1..] + b;
      assert pat[0] !in a[1..];
      ReplaceAllSkip(a[1..], b, pat, rep);
      calc {
        ReplaceAll(a + b, pat, rep);
        [(a + b)[0]] + ReplaceAll((a + b)[1..], pat, rep);
        [a[0]] + ReplaceAll(a[1..] + b, pat, rep);
        [a[0]] + (a[1..] + ReplaceAll(b, pat, rep));
        a + ReplaceAll(b, pat, rep);
      }
    } else {
      assert a + b == b;
    }
  }

  /** A text free of `c` gives `ReplaceAll` no chance to change `c`'s presence:
      when neither the text nor the replacement contains `c`, neither does the result. */
  lemma {:induction false} ReplaceAllKeepsOut(s: string, pat: string, rep: string, c: char)
    requires |pat| > 0 && c !in s && c !in rep
    ensures c !in ReplaceAll(s, pat, rep)
    decreases |s|
  {
    if s != [] {
      if pat <= s {
        ReplaceAllKeepsOut(s[|pat|..], pat, rep, c);
      } else {
        ReplaceAllKeepsOut(s[1..], pat, rep, c);
      }
    }
  }
}
