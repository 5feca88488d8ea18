/**
 Character-level helpers shared by the configuration parsers: whitespace,
 removing all whitespace, trimming, and splitting on / joining with a
 separator character (with the semantics of JavaScript's `String.split`,
 which always yields at least one piece).
 */
module Text {
  import opened Seqs

  /** The characters treated as whitespace by the parsers. */
  predicate IsSpace(c: char)
  {
    c == ' ' || c == '\t' || c == '\n' || c == '\r' || c == '\U{000B}' || c == '\U{000C}'
  }

  /** Every character of `s` is whitespace. */
  predicate AllSpace(s: string)
  {
    forall i :: 0 <= i < |s| ==> IsSpace(s[i])
  }

  /** No character of `s` is whitespace. */
  predicate NoSpace(s: string)
  {
    forall i :: 0 <= i < |s| ==> !IsSpace(s[i])
  }

  /** `s` neither starts nor ends with whitespace. */
  predicate IsTrimmed(s: string)
  {
    s == [] || (!IsSpace(s[0]) && !IsSpace(s[|s| - 1]))
  }

  /** `s` removed of every whitespace character, the other characters kept in order. */
  function StripSpace(s: string): (r: string)
    ensures NoSpace(r) && |r| <= |s|
  {
    if s == [] then []
    else if IsSpace(s[0]) then StripSpace(s[1..])
    else
      var rest := StripSpace(s[1..]);
      assert forall i :: 1 <= i <= |rest| ==> ([s[0]] + rest)[i] == rest[i - 1];
      [s[0]] + rest
  }
  /** The result holds no whitespace, and is empty exactly when the text is blank. */
  lemma {:induction false} StripSpaceResult(s: string)
    ensures NoSpace(StripSpace(s))
    ensures |StripSpace(s)| <= |s|
    ensures AllSpace(s) <==> StripSpace(s) == []
    decreases |s|
  {
    if s != [] {
      StripSpaceResult(s[1..]);
      var r := StripSpace(s[1..]);
      if !IsSpace(s[0]) {
        assert ([s[0]] + r)[0] == s[0];
        assert forall i :: 1 <= i < |r| + 1 ==> ([s[0]] + r)[i] == r[i - 1];
      }
      assert AllSpace(s) <==> IsSpace(s[0]) && AllSpace(s[1..]) by {
        assert forall i :: 1 <= i < |s| ==> s[i] == s[1..][i - 1];
      }
    }
  }

  /** Removing whitespace distributes over concatenation. */
  lemma {:induction false} StripSpaceConcat(a: string, b: string)
    ensures StripSpace(a + b) == StripSpace(a) + StripSpace(b)
    decreases |a|
  {
    if a == [] {
      assert a + b == b;
    } else {
      assert (a + b)[1..] == a[1..] + b;
      StripSpaceConcat(a[1..], b);
    }
  }

  /** Text without whitespace is left as it is. */
  lemma {:induction false} StripSpaceNoSpace(s: string)
    requires NoSpace(s)
    ensures StripSpace(s) == s
    decreases |s|
  {
    if s != [] {
      StripSpaceNoSpace(s[1..]);
      assert s == [s[0]] + s[1..];
    }
  }

  /** Inserting whitespace anywhere does not change what is left once it is removed. */
  lemma StripSpaceIgnoresInsertedSpace(a: string, w: string, b: string)
    requires AllSpace(w)
    ensures StripSpace(a + w + b) == StripSpace(a + b)
  {
    StripSpaceConcat(a + w, b);
    StripSpaceConcat(a, w);
    StripSpaceResult(w);
    StripSpaceConcat(a, b);
  }

  /** Concatenated texts without whitespace have none. */
  lemma NoSpaceConcat(a: string, b: string)
    requires NoSpace(a) && NoSpace(b)
    ensures NoSpace(a + b)
  {
    forall i | 0 <= i < |a + b|
      ensures !IsSpace((a + b)[i])
    {
      if i >= |a| {
        assert (a + b)[i] == b[i - |a|];
      }
    }
  }

  /** `s` without its leading whitespace: the longest suffix that does not start with whitespace. */
  function TrimStart(s: string): (r: string)
    ensures |r| <= |s| && r == s[|s| - |r|..]
    ensures AllSpace(s[..|s| - |r|])
    ensures r == [] || !IsSpace(r[0])
  {
    if s == [] || !IsSpace(s[0]) then s
    else TrimStart(s[1..])
  }

  /** `s` without its trailing whitespace: the longest prefix that does not end with whitespace. */
  function TrimEnd(s: string): (r: string)
    ensures |r| <= |s| && r == s[..|r|]
    ensures AllSpace(s[|r|..])
    ensures r == [] || !IsSpace(r[|r| - 1])
  {
    if s == [] || !IsSpace(s[|s| - 1]) then s
    else TrimEnd(s[..|s| - 1])
  }

  /** `s` without leading and trailing whitespace, like JavaScript's `String.prototype.trim`. */
  function Trim(s: string): (r: string)
    ensures IsTrimmed(r)
  {
    TrimEnd(TrimStart(s))
  }

  /** What trimming removes: the result is a slice of the text whose cut-off ends are whitespace. */
  lemma TrimSlice(s: string)
    ensures exists i, j :: 0 <= i <= j <= |s| && Trim(s) == s[i..j] && AllSpace(s[..i]) && AllSpace(s[j..])
  {
    var l := TrimStart(s);
    var r := TrimEnd(l);
    var i := |s| - |l|;
    assert r == s[i..i + |r|];
    assert s[i + |r|..] == l[|r|..];
  }

  /** A text trims to nothing exactly when it is all whitespace. */
  lemma TrimBlankIff(s: string)
    ensures Trim(s) == [] <==> AllSpace(s)
  {
    var l := TrimStart(s);
    var off := |s| - |l|;
    if TrimEnd(l) == [] {
      assert l == l[0..];
      assert s == s[..off] + l;
    } else if l != [] {
      assert l[0] == s[off];
    }
  }

  /** Leading whitespace is exactly what `TrimStart` removes. */
  lemma {:induction false} TrimStartPadded(p: string, x: string)
    requires AllSpace(p)
    requires x == [] || !IsSpace(x[0])
    ensures TrimStart(p + x) == x
    decreases |p|
  {
    if p == [] {
      assert p + x == x;
    } else {
      assert (p + x)[1..] == p[1..] + x;
      TrimStartPadded(p[1..], x);
    }
  }

  /** Trailing whitespace is exactly what `TrimEnd` removes. */
  lemma {:induction false} TrimEndPadded(x: string, q: string)
    requires AllSpace(q)
    requires x == [] || !IsSpace(x[|x| - 1])
    ensures TrimEnd(x + q) == x
    decreases |q|
  {
    if q == [] {
      assert x + q == x;
    } else {
      assert (x + q)[..|x + q| - 1] == x + q[..|q| - 1];
      TrimEndPadded(x, q[..|q| - 1]);
    }
  }

  /** Trimming recovers a trimmed text from any whitespace padding around it. */
  lemma TrimPadded(p: string, x: string, q: string)
    requires AllSpace(p) && AllSpace(q) && IsTrimmed(x)
    ensures Trim(p + x + q) == x
  {
    if x == [] {
      TrimBlank(p, q);
      assert p + x + q == p + q;
    } else {
      TrimPaddedWord(p, x, q);
      Assoc(p, x, q);
    }
  }

  /** The same for a non-empty text, with the padding grouped to the right. */
  lemma TrimPaddedWord(p: string, x: string, q: string)
    requires AllSpace(p) && AllSpace(q) && IsTrimmed(x) && x != []
    ensures Trim(p + (x + q)) == x
  {
    TrimStartPadded(p, x + q);
    TrimEndPadded(x, q);
  }

  /** Trimming blank text gives nothing. */
  lemma TrimBlank(p: string, q: string)
    requires AllSpace(p) && AllSpace(q)
    ensures Trim(p + q) == []
  {
    assert AllSpace(p + q);
    TrimStartPadded(p + q, []);
    assert p + q + [] == p + q;
  }

  /**
   The pieces of `s` between occurrences of `sep`, in order, like
   JavaScript's `s.split(sep)`: the empty text gives one empty piece.
   */
  function Split(s: string, sep: char): (r: seq<string>)
    ensures |r| >= 1
    ensures forall i :: 0 <= i < |r| ==> sep !in r[i]
    ensures |r| == 1 <==> sep !in s
    decreases |s|
  {
    if s == [] then [[]]
    else if s[0] == sep then [[]] + Split(s[1..], sep)
    else
      var rest := Split(s[1..], sep);
      [[s[0]] + rest[0]] + rest[1..]
  }

  /** The pieces separated by single `sep` characters. */
  function Join(parts: seq<string>, sep: char): string
  {
    if |parts| == 0 then []
    else if |parts| == 1 then parts[0]
    else parts[0] + [sep] + Join(parts[1..], sep)
  }

  /** Joining the pieces of a split gives back the original text. */
  lemma {:induction false} JoinSplit(s: string, sep: char)
    ensures Join(Split(s, sep), sep) == s
    decreases |s|
  {
    if s != [] {
      JoinSplit(s[1..], sep);
      JoinSplitStep(s, sep);
    }
  }

  /** The inductive step: rejoining `s` reduces to rejoining `s[1..]`. */
  lemma JoinSplitStep(s: string, sep: char)
    requires s != [] && Join(Split(s[1..], sep), sep) == s[1..]
    ensures Join(Split(s, sep), sep) == s
  {
    HeadRest(s);
    if s[0] == sep {
      JoinSplitAtSep(s, sep);
    } else {
      JoinSplitInPiece(s, sep);
    }
  }

  /** A leading separator: an empty first piece, then the pieces of the rest. */
  lemma JoinSplitAtSep(s: string, sep: char)
    requires s != [] && s[0] == sep && s == [s[0]] + s[1..]
    requires Join(Split(s[1..], sep), sep) == s[1..]
    ensures Join(Split(s, sep), sep) == s
  {
    var rest := Split(s[1..], sep);
    assert Split(s, sep) == [[]] + rest;
    JoinFront([], rest, sep);
  }

  /** A leading non-separator: it opens the first piece of the rest. */
  lemma JoinSplitInPiece(s: string, sep: char)
    requires s != [] && s[0] != sep && s == [s[0]] + s[1..]
    requires Join(Split(s[1..], sep), sep) == s[1..]
    ensures Join(Split(s, sep), sep) == s
  {
    var rest := Split(s[1..], sep);
    if |rest| == 1 {
      assert Split(s, sep) == [[s[0]] + rest[0]];
    } else {
      assert Split(s, sep) == [[s[0]] + rest[0]] + rest[1..];
      JoinFront(rest[0], rest[1..], sep);
      JoinFront([s[0]] + rest[0], rest[1..], sep);
      HeadRest(rest);
    }
  }

  /** A piece joined in front of at least one other is followed by the separator. */
  lemma JoinFront(x: string, parts: seq<string>, sep: char)
    requires parts != []
    ensures Join([x] + parts, sep) == x + [sep] + Join(parts, sep)
  {
    assert ([x] + parts)[1..] == parts;
  }

  /** Splitting a joined text gives back the pieces, provided none contains the separator. */
  lemma {:induction false} SplitJoin(parts: seq<string>, sep: char)
    requires |parts| >= 1
    requires forall i :: 0 <= i < |parts| ==> sep !in parts[i]
    ensures Split(Join(parts, sep), sep) == parts
    decreases |parts|
  {
    if |parts| == 1 {
      SplitNoSep(parts[0], sep);
    } else {
      SplitJoin(parts[1..], sep);
      SplitPrefix(parts[0], sep, Join(parts[1..], sep));
      assert parts == [parts[0]] + parts[1..];
    }
  }

  /** Text without the separator is a single piece. */
  lemma {:induction false} SplitNoSep(s: string, sep: char)
    requires sep !in s
    ensures Split(s, sep) == [s]
    decreases |s|
  {
    if s != [] {
      SplitNoSep(s[1..], sep);
      assert s == [s[0]] + s[1..];
    }
  }

  /** A separator-free prefix followed by a separator is the first piece. */
  lemma {:induction false} SplitPrefix(a: string, sep: char, b: string)
    requires sep !in a
    ensures Split(a + [sep] + b, sep) == [a] + Split(b, sep)
    decreases |a|
  {
    if a == [] {
      assert a + [sep] + b == [sep] + b;
      assert ([sep] + b)[1..] == b;
    } else {
      var x := a + [sep] + b;
      assert x[0] == a[0] && x[1..] == a[1..] + [sep] + b;
      SplitPrefix(a[1..], sep, b);
      var rest := Split(x[1..], sep);
      assert rest[0] == a[1..] && rest[1..] == Split(b, sep);
      HeadRest(a);
    }
  }
}
