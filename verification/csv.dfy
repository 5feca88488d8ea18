/**
 The comma-separated-list tokenizer `csvToArray`: a text is split on commas,
 each piece is trimmed, and the pieces are returned in their original order.
 An undefined, null or empty input gives the empty list and never fails.
 */
module Csv {
  import opened Seqs
  import opened Text

  /** A JavaScript value passed where a string is expected. */
  datatype JsStr = Undefined | Null | Str(s: string)

  /** A token as the tokenizer returns it: non-empty, trimmed, and free of commas. */
  predicate IsToken(t: string)
  {
    t != [] && IsTrimmed(t) && ',' !in t
  }

  /** All elements of `ts` are tokens. */
  predicate AllTokens(ts: seq<string>)
  {
    forall i :: 0 <= i < |ts| ==> IsToken(ts[i])
  }

  /** No piece contains a comma (as is the case for the pieces of a split on commas). */
  predicate CommaFree(pieces: seq<string>)
  {
    forall i :: 0 <= i < |pieces| ==> ',' !in pieces[i]
  }

  /** Every piece is blank. */
  predicate AllBlank(pieces: seq<string>)
  {
    forall i :: 0 <= i < |pieces| ==> AllSpace(pieces[i])
  }

  /** Trimming a comma-free piece gives a token, or nothing when the piece is blank. */
  function TrimPiece(piece: string): (r: string)
    requires ',' !in piece
    ensures r == [] || IsToken(r)
    ensures r == [] <==> AllSpace(piece)
  {
    TrimOfCommaFree(piece);
    Trim(piece)
  }

  /** The trim of a comma-free piece is comma-free, and empty exactly when the piece is blank. */
  lemma TrimOfCommaFree(piece: string)
    requires ',' !in piece
    ensures ',' !in Trim(piece)
    ensures Trim(piece) == [] <==> AllSpace(piece)
  {
    TrimCommaFree(piece);
    TrimBlankIff(piece);
  }

  /** Trimming keeps a piece comma-free: the trim is a slice of the piece. */
  lemma TrimCommaFree(piece: string)
    requires ',' !in piece
    ensures ',' !in Trim(piece)
  {
    var l := TrimStart(piece);
    NotInDrop(piece, |piece| - |l|, ',');
    NotInTake(l, |TrimEnd(l)|, ',');
  }

  /** The trimmed pieces in order, those that are blank dropped. */
  function Tokens(pieces: seq<string>): (r: seq<string>)
    requires CommaFree(pieces)
    ensures AllTokens(r)
    ensures |r| <= |pieces|
  {
    if pieces == [] then []
    else
      var t := TrimPiece(pieces[0]);
      CommaFreeTail(pieces);
      var rest := Tokens(pieces[1..]);
      TokensPrepend(t, rest);
      (if t == [] then [] else [t]) + rest
  }

  /** The first piece and the remaining pieces of a comma-free list are comma-free. */
  lemma CommaFreeTail(pieces: seq<string>)
    requires CommaFree(pieces) && pieces != []
    ensures ',' !in pieces[0] && CommaFree(pieces[1..])
  {
    assert forall i :: 1 <= i < |pieces| ==> pieces[1..][i - 1] == pieces[i];
  }

  /** Putting a token, or nothing, in front of tokens gives tokens. */
  lemma TokensPrepend(t: string, rest: seq<string>)
    requires t == [] || IsToken(t)
    requires AllTokens(rest)
    ensures AllTokens((if t == [] then [] else [t]) + rest)
  {
    var r := (if t == [] then [] else [t]) + rest;
    if t != [] {
      assert r[0] == t;
      assert forall i :: 1 <= i < |r| ==> r[i] == rest[i - 1];
    } else {
      assert r == rest;
    }
  }

  /** The tokens are empty exactly when every piece is blank. */
  lemma {:induction false} TokensEmpty(pieces: seq<string>)
    requires CommaFree(pieces)
    ensures Tokens(pieces) == [] <==> AllBlank(pieces)
    decreases |pieces|
  {
    if pieces != [] {
      AllBlankCons(pieces);
      TokensEmpty(pieces[1..]);
    }
  }

  /** A list of pieces is blank when its head and its tail are. */
  lemma AllBlankCons(pieces: seq<string>)
    requires pieces != []
    ensures AllBlank(pieces) <==> AllSpace(pieces[0]) && AllBlank(pieces[1..])
  {
    assert forall i :: 1 <= i < |pieces| ==> pieces[i] == pieces[1..][i - 1];
  }

  /** `csvToArray`: the tokens of a comma-separated text, in order. */
  function CsvToArray(v: JsStr): (r: seq<string>)
    ensures AllTokens(r)
    ensures v.Str? ==> |r| <= |Split(v.s, ',')|
    ensures !v.Str? ==> r == []
    ensures v.Str? ==> (r == [] <==> AllBlank(Split(v.s, ',')))
  {
    match v
    case Undefined => []
    case Null => []
    case Str(s) =>
      TokensEmpty(Split(s, ','));
      Tokens(Split(s, ','))
  }

  /** A text without commas is one piece: it gives its trimmed self, or nothing when that is empty. */
  lemma CsvOfCommaFree(s: string)
    requires ',' !in s
    ensures CsvToArray(Str(s)) == if Trim(s) == [] then [] else [Trim(s)]
  {
    SplitNoSep(s, ',');
    assert [s] + [] == [s];
    TokensCons(s, []);
    assert TrimPiece(s) == Trim(s);
  }

  /** Blank text (in particular the empty text) gives no tokens. */
  lemma BlankGivesNothing(s: string)
    requires AllSpace(s)
    ensures CsvToArray(Str(s)) == []
  {
    SplitNoSep(s, ',');
  }

  /** Tokens of concatenated piece lists are the concatenated tokens. */
  lemma {:induction false} TokensConcat(a: seq<string>, b: seq<string>)
    requires CommaFree(a) && CommaFree(b)
    ensures CommaFree(a + b)
    ensures Tokens(a + b) == Tokens(a) + Tokens(b)
    decreases |a|
  {
    CommaFreeConcat(a, b);
    if a == [] {
      assert a + b == b;
    } else {
      TokensConcat(a[1..], b);
      HeadTail(a, b);
      TokensCons(a[0], a[1..] + b);
      HeadTail(a, []);
      assert a + [] == a;
      TokensCons(a[0], a[1..]);
      var h := if TrimPiece(a[0]) == [] then [] else [TrimPiece(a[0])];
      Assoc(h, Tokens(a[1..]), Tokens(b));
    }
  }

  /** The first piece contributes its trimmed text, unless it is blank. */
  lemma TokensCons(x: string, rest: seq<string>)
    requires ',' !in x && CommaFree(rest)
    ensures CommaFree([x] + rest)
    ensures Tokens([x] + rest) == (if TrimPiece(x) == [] then [] else [TrimPiece(x)]) + Tokens(rest)
  {
    assert ([x] + rest)[1..] == rest;
  }

  /** Concatenating comma-free piece lists keeps them comma-free. */
  lemma CommaFreeConcat(a: seq<string>, b: seq<string>)
    requires CommaFree(a) && CommaFree(b)
    ensures CommaFree(a + b)
  {
    forall i | 0 <= i < |a + b|
      ensures ',' !in (a + b)[i]
    {
      if i < |a| {
        assert (a + b)[i] == a[i];
      } else {
        assert (a + b)[i] == b[i - |a|];
      }
    }
  }

  /** Splitting at a separator splits the pieces list. */
  lemma {:induction false} SplitAtSep(a: string, sep: char, b: string)
    ensures Split(a + [sep] + b, sep) == Split(a, sep) + Split(b, sep)
    decreases |a|
  {
    if a == [] {
      assert a + [sep] + b == [sep] + b;
      assert ([sep] + b)[1..] == b;
    } else if a[0] == sep {
      assert (a + [sep] + b)[1..] == a[1..] + [sep] + b;
      SplitAtSep(a[1..], sep, b);
    } else {
      assert (a + [sep] + b)[1..] == a[1..] + [sep] + b;
      SplitAtSep(a[1..], sep, b);
    }
  }

  /** Order is kept: the tokens of `a,b` are those of `a` followed by those of `b`. */
  lemma CsvConcat(a: string, b: string)
    ensures CsvToArray(Str(a + "," + b)) == CsvToArray(Str(a)) + CsvToArray(Str(b))
  {
    SplitAtSep(a, ',', b);
    TokensConcat(Split(a, ','), Split(b, ','));
  }

  /** Pieces that trim to the given tokens give exactly those tokens back. */
  lemma {:induction false} TokensOfPadded(pieces: seq<string>, tokens: seq<string>)
    requires CommaFree(pieces) && AllTokens(tokens)
    requires |pieces| == |tokens|
    requires forall i :: 0 <= i < |pieces| ==> Trim(pieces[i]) == tokens[i]
    ensures Tokens(pieces) == tokens
    decreases |pieces|
  {
    if pieces != [] {
      PaddedTail(pieces, tokens);
      TokensOfPadded(pieces[1..], tokens[1..]);
      PaddedCons(pieces[0], pieces[1..], tokens[0], tokens[1..]);
      HeadRest(pieces);
      HeadRest(tokens);
    }
  }

  /** A piece that trims to a token, in front of pieces giving `rest`, gives that token then `rest`. */
  lemma PaddedCons(h: string, t: seq<string>, token: string, rest: seq<string>)
    requires ',' !in h && CommaFree(t)
    requires TrimPiece(h) == token && token != [] && Tokens(t) == rest
    ensures CommaFree([h] + t)
    ensures Tokens([h] + t) == [token] + rest
  {
    TokensCons(h, t);
  }

  /** The head piece trims to the head token, and the tails still correspond. */
  lemma PaddedTail(pieces: seq<string>, tokens: seq<string>)
    requires CommaFree(pieces) && AllTokens(tokens)
    requires |pieces| == |tokens| && pieces != []
    requires forall i :: 0 <= i < |pieces| ==> Trim(pieces[i]) == tokens[i]
    ensures ',' !in pieces[0] && TrimPiece(pieces[0]) == tokens[0] && tokens[0] != []
    ensures CommaFree(pieces[1..]) && AllTokens(tokens[1..])
    ensures forall i :: 0 <= i < |pieces| - 1 ==> Trim(pieces[1..][i]) == tokens[1..][i]
  {
    CommaFreeTail(pieces);
    assert forall i :: 0 <= i < |tokens| - 1 ==> tokens[1..][i] == tokens[i + 1];
    assert forall i :: 0 <= i < |pieces| - 1 ==> pieces[1..][i] == pieces[i + 1];
  }

  /** Whitespace padding around the pieces does not change the tokens. */
  lemma CsvIgnoresPadding(pieces: seq<string>, tokens: seq<string>)
    requires CommaFree(pieces) && AllTokens(tokens)
    requires |pieces| == |tokens|
    requires forall i :: 0 <= i < |pieces| ==> Trim(pieces[i]) == tokens[i]
    ensures CsvToArray(Str(Join(pieces, ','))) == tokens
  {
    if pieces == [] {
      BlankGivesNothing([]);
    } else {
      SplitJoin(pieces, ',');
      TokensOfPadded(pieces, tokens);
    }
  }

  /** Tokens joined with commas are read back unchanged. */
  lemma CsvRoundTrip(tokens: seq<string>)
    requires AllTokens(tokens)
    ensures CsvToArray(Str(Join(tokens, ','))) == tokens
  {
    if tokens == [] {
      BlankGivesNothing([]);
    } else {
      forall i | 0 <= i < |tokens|
        ensures Trim(tokens[i]) == tokens[i]
      {
        TrimPadded([], tokens[i], []);
        assert [] + tokens[i] + [] == tokens[i];
      }
      CsvIgnoresPadding(tokens, tokens);
    }
  }
}
