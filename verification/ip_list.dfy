/**
 The IP allowlist parser `parseIPlist`. The input is a bracketed list of
 bracketed address pairs, `[[a,b],[c,d]]`; whitespace is insignificant
 everywhere, so it is removed first, and the remaining text is scanned entry
 by entry. Every malformed input, in particular an entry that does not hold
 exactly two addresses, fails with one fixed user-facing message.
 */
module IpList {
  import opened Wrappers
  import opened Text

  /** The message of the error raised for a malformed list; it is shown to users verbatim. */
  const NotAllowed: string :=
    "Your IP address is not allowed. Verify your " + "network address and your Refocus IP settings"

  /** An inclusive range of addresses, kept as the text of its two ends. */
  datatype IpRange = IpRange(lower: string, upper: string)

  /** A character that may appear inside an address token. */
  predicate IsAddressChar(c: char)
  {
    !IsSpace(c) && c != '[' && c != ']' && c != ','
  }

  /** An address token: non-empty, with no whitespace, bracket or comma (octets are not validated). */
  predicate IsAddress(t: string)
  {
    t != [] && forall i :: 0 <= i < |t| ==> IsAddressChar(t[i])
  }

  predicate IsValidRange(r: IpRange)
  {
    IsAddress(r.lower) && IsAddress(r.upper)
  }

  predicate AllValid(rs: seq<IpRange>)
  {
    forall i :: 0 <= i < |rs| ==> IsValidRange(rs[i])
  }

  /** The text of one entry: `[lower,upper]`. */
  function RangeText(r: IpRange): string
  {
    "[" + r.lower + "," + r.upper + "]"
  }

  /** The entries separated by commas. */
  function EntriesText(rs: seq<IpRange>): string
  {
    if |rs| == 0 then ""
    else if |rs| == 1 then RangeText(rs[0])
    else RangeText(rs[0]) + "," + EntriesText(rs[1..])
  }

  /** The canonical, whitespace-free text of a range list: `[[a,b],[c,d]]`. */
  function ListText(rs: seq<IpRange>): string
  {
    "[" + EntriesText(rs) + "]"
  }

  /** The entries each followed by a comma, as they stand before a later entry. */
  function LeadingText(rs: seq<IpRange>): string
  {
    if rs == [] then "" else RangeText(rs[0]) + "," + LeadingText(rs[1..])
  }

  /** The position of the first occurrence of `c` in `s`. */
  function IndexOf(s: string, c: char): (k: nat)
    requires c in s
    ensures k < |s| && s[k] == c
    ensures forall i :: 0 <= i < k ==> s[i] != c
  {
    if s[0] == c then 0 else 1 + IndexOf(s[1..], c)
  }

  /** The inside of one entry, `lower,upper`, read as a range. */
  function ParseRange(body: string): (r: Result<IpRange, string>)
    ensures r.Success? ==> IsValidRange(r.value) && r.value.lower + "," + r.value.upper == body
    ensures r.Failure? ==> r.error == NotAllowed
  {
    var parts := Split(body, ',');
    if |parts| == 2 && IsAddress(parts[0]) && IsAddress(parts[1]) then
      JoinSplit(body, ',');
      Success(IpRange(parts[0], parts[1]))
    else
      Failure(NotAllowed)
  }

  /** One or more comma-separated entries, scanned from the left. */
  function ParseEntries(s: string): (r: Result<seq<IpRange>, string>)
    ensures r.Success? ==> r.value != [] && AllValid(r.value) && EntriesText(r.value) == s
    ensures r.Failure? ==> r.error == NotAllowed
    decreases |s|
  {
    if s == [] || s[0] != '[' || ']' !in s then Failure(NotAllowed)
    else
      var j := IndexOf(s, ']');
      match ParseRange(s[1..j])
      case Failure(e) => Failure(e)
      case Success(x) =>
        var rest := s[j + 1..];
        if rest == [] then
          FirstEntry(s, j, x);
          Success([x])
        else if rest[0] != ',' then Failure(NotAllowed)
        else
          match ParseEntries(rest[1..])
          case Failure(e) => Failure(e)
          case Success(xs) =>
            FirstEntry(s, j, x);
            EntriesCons(x, xs);
            Success([x] + xs)
  }

  /** The text up to the first closing bracket is the entry read from it. */
  lemma FirstEntry(s: string, j: nat, x: IpRange)
    requires 0 < j < |s| && s[0] == '[' && s[j] == ']'
    requires x.lower + "," + x.upper == s[1..j]
    ensures s[..j + 1] == RangeText(x)
    ensures j + 1 == |s| ==> s == RangeText(x)
    ensures j + 1 < |s| ==> s == RangeText(x) + [s[j + 1]] + s[j + 2..]
  {
    assert s[..j + 1] == [s[0]] + s[1..j] + [s[j]];
    if j + 1 < |s| {
      assert s == s[..j + 1] + [s[j + 1]] + s[j + 2..];
    }
  }

  /** The text of a list with at least two entries starts with its first entry and a comma. */
  lemma EntriesCons(x: IpRange, xs: seq<IpRange>)
    requires xs != []
    ensures EntriesText([x] + xs) == RangeText(x) + "," + EntriesText(xs)
    ensures IsValidRange(x) && AllValid(xs) ==> AllValid([x] + xs)
  {
    assert ([x] + xs)[1..] == xs;
  }

  /** A whitespace-free text: the outer brackets around zero or more entries. */
  function ParseStripped(t: string): (r: Result<seq<IpRange>, string>)
    ensures r.Success? ==> AllValid(r.value) && ListText(r.value) == t
    ensures r.Failure? ==> r.error == NotAllowed
    ensures t == "[]" ==> r == Success([])
    ensures (t == [] || t[0] != '[' || t[|t| - 1] != ']') ==> r.Failure?
  {
    if |t| < 2 || t[0] != '[' || t[|t| - 1] != ']' then Failure(NotAllowed)
    else
      var inner := t[1..|t| - 1];
      assert t == "[" + inner + "]";
      if inner == [] then Success([])
      else ParseEntries(inner)
  }

  /** `parseIPlist`: the ranges of an allowlist text, or the fixed error. */
  function Parse(text: string): (r: Result<seq<IpRange>, string>)
    ensures r.Success? ==> AllValid(r.value) && ListText(r.value) == StripSpace(text)
    ensures r.Failure? ==> r.error == NotAllowed
  {
    ParseStripped(StripSpace(text))
  }

  /** A valid range's inside is read back as that range. */
  lemma ParseRangeOf(x: IpRange)
    requires IsValidRange(x)
    ensures ParseRange(x.lower + "," + x.upper) == Success(x)
  {
    SplitPrefix(x.lower, ',', x.upper);
    SplitNoSep(x.upper, ',');
  }

  /** In the text of a valid entry, the first closing bracket is the entry's last character. */
  lemma EntryEnd(x: IpRange, y: string)
    requires IsValidRange(x)
    ensures ']' in RangeText(x) + y
    ensures IndexOf(RangeText(x) + y, ']') == |RangeText(x)| - 1
    ensures (RangeText(x) + y)[1..|RangeText(x)| - 1] == x.lower + "," + x.upper
  {
    var s := RangeText(x) + y;
    var n := |RangeText(x)|;
    assert s[n - 1] == ']';
    forall i | 0 <= i < n - 1
      ensures s[i] != ']'
    {
      if 1 <= i < 1 + |x.lower| {
        assert s[i] == x.lower[i - 1];
      } else if 1 + |x.lower| < i {
        assert s[i] == x.upper[i - 2 - |x.lower|];
      }
    }
  }

  /** Prefixes the ranges to a successful result and keeps a failure as it is. */
  function Prepend(p: seq<IpRange>, r: Result<seq<IpRange>, string>): Result<seq<IpRange>, string>
  {
    match r
    case Success(v) => Success(p + v)
    case Failure(e) => Failure(e)
  }

  /** A lone valid entry is read as that range. */
  lemma ParseEntriesSingle(x: IpRange)
    requires IsValidRange(x)
    ensures ParseEntries(RangeText(x)) == Success([x])
  {
    EntryEnd(x, "");
    assert RangeText(x) + "" == RangeText(x);
    ParseRangeOf(x);
  }

  /** A valid entry followed by a comma is read, then scanning goes on after the comma. */
  lemma ParseEntriesCons(x: IpRange, z: string)
    requires IsValidRange(x)
    ensures ParseEntries(RangeText(x) + "," + z) == Prepend([x], ParseEntries(z))
  {
    var s := RangeText(x) + "," + z;
    assert s == RangeText(x) + ("," + z);
    EntryEnd(x, "," + z);
    ParseRangeOf(x);
    assert s[|RangeText(x)|..] == "," + z;
    assert ("," + z)[1..] == z;
  }

  /** The text of valid entries is scanned back into exactly those entries. */
  lemma {:induction false} ParseEntriesOf(rs: seq<IpRange>)
    requires rs != [] && AllValid(rs)
    ensures ParseEntries(EntriesText(rs)) == Success(rs)
    decreases |rs|
  {
    if |rs| == 1 {
      ParseEntriesSingle(rs[0]);
      assert rs == [rs[0]];
    } else {
      ParseEntriesCons(rs[0], EntriesText(rs[1..]));
      ParseEntriesOf(rs[1..]);
      assert rs == [rs[0]] + rs[1..];
    }
  }

  /** The canonical text of valid ranges holds no whitespace. */
  lemma {:induction false} EntriesNoSpace(rs: seq<IpRange>)
    requires AllValid(rs)
    ensures NoSpace(EntriesText(rs))
    decreases |rs|
  {
    if rs != [] {
      var x := rs[0];
      NoSpaceConcat("[" + x.lower, ",");
      NoSpaceConcat("[", x.lower);
      NoSpaceConcat("[" + x.lower + ",", x.upper);
      NoSpaceConcat("[" + x.lower + "," + x.upper, "]");
      if |rs| > 1 {
        EntriesNoSpace(rs[1..]);
        NoSpaceConcat(RangeText(x), ",");
        NoSpaceConcat(RangeText(x) + ",", EntriesText(rs[1..]));
      }
    }
  }

  /** Round trip: the canonical text of valid ranges is read back as those ranges. */
  lemma ParseListOf(rs: seq<IpRange>)
    requires AllValid(rs)
    ensures ParseStripped(ListText(rs)) == Success(rs)
    ensures Parse(ListText(rs)) == Success(rs)
  {
    var t := ListText(rs);
    assert t[1..|t| - 1] == EntriesText(rs);
    if rs != [] {
      ParseEntriesOf(rs);
    }
    EntriesNoSpace(rs);
    NoSpaceConcat("[", EntriesText(rs));
    NoSpaceConcat("[" + EntriesText(rs), "]");
    StripSpaceNoSpace(t);
  }

  /**
   The parser accepts a text exactly when, with whitespace removed, it is the
   canonical text of valid ranges, and it then returns those ranges in order.
   */
  lemma ParseIff(text: string, rs: seq<IpRange>)
    ensures Parse(text) == Success(rs) <==> AllValid(rs) && StripSpace(text) == ListText(rs)
  {
    if AllValid(rs) && StripSpace(text) == ListText(rs) {
      ParseListOf(rs);
    }
  }

  /** The parser fails exactly on texts that are not, up to whitespace, the text of valid ranges. */
  lemma ParseFailsIff(text: string)
    ensures Parse(text).Failure? <==> forall rs :: AllValid(rs) ==> ListText(rs) != StripSpace(text)
  {
    if Parse(text).Failure? {
      forall rs | AllValid(rs)
        ensures ListText(rs) != StripSpace(text)
      {
        ParseIff(text, rs);
      }
    }
  }

  /** Whitespace inserted anywhere, around brackets, commas or addresses, does not change the result. */
  lemma ParseIgnoresInsertedSpace(a: string, w: string, b: string)
    requires AllSpace(w)
    ensures Parse(a + w + b) == Parse(a + b)
  {
    StripSpaceIgnoresInsertedSpace(a, w, b);
  }

  /** Well-formed entries in front of a text are scanned first and kept in front of its entries. */
  lemma {:induction false} ParseEntriesAfter(p: seq<IpRange>, x: string)
    requires AllValid(p)
    ensures ParseEntries(LeadingText(p) + x) == Prepend(p, ParseEntries(x))
    decreases |p|
  {
    if p == [] {
      assert LeadingText(p) + x == x;
      assert ParseEntries(x).Success? ==> [] + ParseEntries(x).value == ParseEntries(x).value;
    } else {
      var tail := LeadingText(p[1..]) + x;
      assert LeadingText(p) + x == RangeText(p[0]) + "," + tail;
      ParseEntriesCons(p[0], tail);
      ParseEntriesAfter(p[1..], x);
      PrependTwice([p[0]], p[1..], ParseEntries(x));
      assert [p[0]] + p[1..] == p;
    }
  }

  /** Prefixing twice is prefixing with the concatenation. */
  lemma PrependTwice(a: seq<IpRange>, b: seq<IpRange>, r: Result<seq<IpRange>, string>)
    ensures Prepend(a, Prepend(b, r)) == Prepend(a + b, r)
  {
    if r.Success? {
      assert a + (b + r.value) == (a + b) + r.value;
    }
  }

  /** The first closing bracket of a bracketed text closes it when the inside has none. */
  lemma BracketedIndex(body: string, y: string)
    requires ']' !in body
    ensures ']' in "[" + body + "]" + y
    ensures IndexOf("[" + body + "]" + y, ']') == |body| + 1
  {
    var s := "[" + body + "]" + y;
    assert s[|body| + 1] == ']';
    assert forall i :: 1 <= i <= |body| ==> s[i] == body[i - 1];
  }

  /** An entry whose inside does not split into exactly two parts at commas is rejected. */
  lemma EntryArityFails(body: string, y: string)
    requires ']' !in body
    requires |Split(body, ',')| != 2
    ensures ParseEntries("[" + body + "]" + y) == Failure(NotAllowed)
  {
    var s := "[" + body + "]" + y;
    BracketedIndex(body, y);
    assert s[1..|body| + 1] == body;
  }

  /**
   A list whose entry holds a single address fails with the fixed message,
   even when the entries before it are well formed.
   */
  lemma OneAddressEntryFails(text: string, p: seq<IpRange>, a: string, rest: string)
    requires AllValid(p) && IsAddress(a)
    requires StripSpace(text) == "[" + LeadingText(p) + "[" + a + "]" + rest
    ensures Parse(text) == Failure(NotAllowed)
  {
    OneAddressEntryFailsStripped(StripSpace(text), p, a, rest);
  }

  /** The same, for a text from which whitespace has been removed. */
  lemma OneAddressEntryFailsStripped(t: string, p: seq<IpRange>, a: string, rest: string)
    requires AllValid(p) && IsAddress(a)
    requires t == "[" + LeadingText(p) + "[" + a + "]" + rest
    ensures ParseStripped(t) == Failure(NotAllowed)
  {
    if t[|t| - 1] == ']' {
      if rest == [] {
        LastEntryOneAddress(t, p, a);
      } else {
        InnerEntryOneAddress(t, p, a, rest[..|rest| - 1]);
      }
    }
  }

  /** The entry with one address is the last one. */
  lemma LastEntryOneAddress(t: string, p: seq<IpRange>, a: string)
    requires AllValid(p) && IsAddress(a)
    requires t == "[" + LeadingText(p) + "[" + a + "]"
    ensures ParseStripped(t) == Failure(NotAllowed)
  {
    var l := LeadingText(p);
    assert t == "[" + (l + ("[" + a)) + "]";
    ParseStrippedInside(t, l + ("[" + a));
    UnclosedEntryFails(a);
    ParseEntriesAfter(p, "[" + a);
  }

  /** An entry that is opened but never closed is rejected. */
  lemma UnclosedEntryFails(a: string)
    requires IsAddress(a)
    ensures ParseEntries("[" + a) == Failure(NotAllowed)
  {
    assert forall i :: 1 <= i < |a| + 1 ==> ("[" + a)[i] == a[i - 1];
  }

  /** The entry with one address is followed by more text `y` before the closing bracket. */
  lemma InnerEntryOneAddress(t: string, p: seq<IpRange>, a: string, y: string)
    requires AllValid(p) && IsAddress(a)
    requires t == "[" + LeadingText(p) + "[" + a + "]" + y + "]"
    ensures ParseStripped(t) == Failure(NotAllowed)
  {
    var l := LeadingText(p);
    assert t == "[" + (l + ("[" + a + "]" + y)) + "]";
    ParseStrippedInside(t, l + ("[" + a + "]" + y));
    SplitNoSep(a, ',');
    EntryArityFails(a, y);
    ParseEntriesAfter(p, "[" + a + "]" + y);
  }

  /** Inside non-empty outer brackets, the entries are scanned. */
  lemma ParseStrippedInside(t: string, m: string)
    requires t == "[" + m + "]" && m != []
    ensures ParseStripped(t) == ParseEntries(m)
  {
    assert t[1..|t| - 1] == m;
  }
}
