/**
  The pieces of java.lang and java.util that the indexer leans on: String.split with a
  one-character separator, List.removeAll, Long.parseLong, Long.toString and
  deleting the characters of a class from a string.
*/
module JavaText {
  import opened Wrappers

  // ---------------------------------------------------------------------------
  // Splitting
  // ---------------------------------------------------------------------------

  /** `s` cut at every `sep`, empty pieces included (always at least one piece). */
  function Pieces(s: string, sep: char): (r: seq<string>)
    ensures |r| >= 1
    ensures forall i :: 0 <= i < |r| ==> sep !in r[i]
    decreases |s|
  {
    if |s| == 0 then [""]
    else
      var rest := Pieces(s[1..], sep);
      if s[0] == sep then [""] + rest
      else [[s[0]] + rest[0]] + rest[1..]
  }

  /** The pieces put back together with `sep` between them. */
  function Join(ps: seq<string>, sep: char): string
  {
    if |ps| == 0 then ""
    else if |ps| == 1 then ps[0]
    else ps[0] + [sep] + Join(ps[1..], sep)
  }

  /** Drops the empty strings at the end of `ps`. */
  function DropTrailingEmpty(ps: seq<string>): (r: seq<string>)
    ensures |r| <= |ps| && r == ps[..|r|]
    ensures r == [] || r[|r| - 1] != ""
    ensures forall i :: |r| <= i < |ps| ==> ps[i] == ""
  {
    if |ps| > 0 && ps[|ps| - 1] == "" then DropTrailingEmpty(ps[..|ps| - 1]) else ps
  }

  /**
    Java's `s.split(String.valueOf(sep))` for a separator that is not a regex
    metacharacter: when `sep` does not occur the result is `[s]` (so "" gives
    [""]); otherwise the pieces with the trailing empty ones removed (so ","
    gives []).
  */
  function Split(s: string, sep: char): (r: seq<string>)
    ensures forall i :: 0 <= i < |r| ==> sep !in r[i]
    ensures |r| <= |Pieces(s, sep)| && r == Pieces(s, sep)[..|r|]
    ensures forall i :: |r| <= i < |Pieces(s, sep)| ==> Pieces(s, sep)[i] == ""
    ensures sep !in s ==> r == [s]
    ensures sep in s ==> r == [] || r[|r| - 1] != ""
  {
    if sep !in s then
      assert Pieces(s, sep) == [s] by { PiecesWithoutSep(s, sep); }
      [s]
    else DropTrailingEmpty(Pieces(s, sep))
  }

  /** Two separator-free strings, the second non-empty, joined by the separator split back into the two. */
  lemma SplitTwo(a: string, sep: char, b: string)
    requires sep !in a && sep !in b && b != ""
    ensures Split(a + [sep] + b, sep) == [a, b]
  {
    var s := a + [sep] + b;
    PiecesCons(a, sep, b);
    PiecesWithoutSep(b, sep);
    assert s[|a|] == sep;
    assert Pieces(s, sep) == [a, b];
    assert DropTrailingEmpty([a, b]) == [a, b];
  }

  /** A string without the separator is a single piece. */
  lemma {:induction false} PiecesWithoutSep(s: string, sep: char)
    requires sep !in s
    ensures Pieces(s, sep) == [s]
    decreases |s|
  {
    if |s| > 0 {
      PiecesWithoutSep(s[1..], sep);
      assert [s[0]] + s[1..] == s;
    }
  }

  /** Joining the pieces gives the string back. */
  lemma {:induction false} JoinPieces(s: string, sep: char)
    ensures Join(Pieces(s, sep), sep) == s
    decreases |s|
  {
    if |s| > 0 {
      var rest := Pieces(s[1..], sep);
      JoinPieces(s[1..], sep);
      if s[0] == sep {
        assert Join([""] + rest, sep) == "" + [sep] + Join(rest, sep);
      } else if |rest| == 1 {
        assert [s[0]] + s[1..] == s;
      } else {
        var r := [[s[0]] + rest[0]] + rest[1..];
        assert r[1..] == rest[1..];
        assert Join(rest, sep) == rest[0] + [sep] + Join(rest[1..], sep);
        assert Join(r, sep) == [s[0]] + rest[0] + [sep] + Join(rest[1..], sep);
        assert [s[0]] + s[1..] == s;
      }
    }
  }

  /** The separator cuts off exactly its left-hand side. */
  lemma {:induction false} PiecesCons(a: string, sep: char, b: string)
    requires sep !in a
    ensures Pieces(a + [sep] + b, sep) == [a] + Pieces(b, sep)
    decreases |a|
  {
    var s := a + [sep] + b;
    if |a| == 0 {
      assert s[0] == sep && s[1..] == b;
    } else {
      assert s[1..] == a[1..] + [sep] + b;
      PiecesCons(a[1..], sep, b);
      assert [a[0]] + a[1..] == a;
    }
  }

  /** Cutting a join of separator-free strings gives the strings back. */
  lemma {:induction false} PiecesJoin(ps: seq<string>, sep: char)
    requires |ps| >= 1
    requires forall i :: 0 <= i < |ps| ==> sep !in ps[i]
    ensures Pieces(Join(ps, sep), sep) == ps
  {
    if |ps| == 1 {
      PiecesWithoutSep(ps[0], sep);
    } else {
      PiecesJoin(ps[1..], sep);
      PiecesCons(ps[0], sep, Join(ps[1..], sep));
      assert [ps[0]] + ps[1..] == ps;
    }
  }

  /** Java's split loses nothing when the string does not end with the separator. */
  lemma SplitJoin(s: string, sep: char)
    requires s == [] || s[|s| - 1] != sep
    ensures Join(Split(s, sep), sep) == s
  {
    JoinPieces(s, sep);
    if sep in s {
      var ps := Pieces(s, sep);
      LastPieceIsTail(s, sep);
      assert ps[|ps| - 1] != "";
      assert DropTrailingEmpty(ps) == ps;
    }
  }

  /** The last piece is empty only when the string ends with the separator. */
  lemma {:induction false} LastPieceIsTail(s: string, sep: char)
    requires |s| > 0 && s[|s| - 1] != sep
    ensures Pieces(s, sep)[|Pieces(s, sep)| - 1] != ""
    decreases |s|
  {
    if |s| > 1 {
      LastPieceIsTail(s[1..], sep);
    }
  }

  // ---------------------------------------------------------------------------
  // List.removeAll
  // ---------------------------------------------------------------------------

  /** `xs.removeAll(c)`: every element equal to a member of `c` is dropped, the rest keep their order. */
  function RemoveAll(xs: seq<string>, c: seq<string>): (r: seq<string>)
    ensures |r| <= |xs|
    ensures forall x {:trigger x in r} :: x in r <==> x in xs && x !in c
  {
    if |xs| == 0 then []
    else (if xs[0] in c then [] else [xs[0]]) + RemoveAll(xs[1..], c)
  }

  /** removeAll works element by element, so it distributes over concatenation. */
  lemma {:induction false} RemoveAllAppend(xs: seq<string>, ys: seq<string>, c: seq<string>)
    ensures RemoveAll(xs + ys, c) == RemoveAll(xs, c) + RemoveAll(ys, c)
  {
    if |xs| > 0 {
      assert (xs + ys)[1..] == xs[1..] + ys;
      RemoveAllAppend(xs[1..], ys, c);
    } else {
      assert xs + ys == ys;
    }
  }

  /** removeAll decides the head of a list on its own. */
  lemma RemoveAllCons(w: string, rest: seq<string>, c: seq<string>)
    ensures RemoveAll([w] + rest, c) == (if w in c then [] else [w]) + RemoveAll(rest, c)
  {
    assert ([w] + rest)[1..] == rest;
  }

  /** removeAll leaves a list none of whose elements is in the collection as it was. */
  lemma {:induction false} RemoveAllNone(xs: seq<string>, c: seq<string>)
    requires forall i :: 0 <= i < |xs| ==> xs[i] !in c
    ensures RemoveAll(xs, c) == xs
  {
    if |xs| > 0 {
      RemoveAllNone(xs[1..], c);
      assert [xs[0]] + xs[1..] == xs;
    }
  }

  /** removeAll on three elements none of which is in the collection. */
  lemma RemoveAllNoneOfThree(a: string, b: string, d: string, c: seq<string>)
    requires a !in c && b !in c && d !in c
    ensures RemoveAll([a, b, d], c) == [a, b, d]
  {
    RemoveAllNone([a, b, d], c);
  }

  /** removeAll on three elements of which only the first is in the collection. */
  lemma RemoveAllFirstOfThree(a: string, b: string, d: string, c: seq<string>)
    requires a in c && b !in c && d !in c
    ensures RemoveAll([a, b, d], c) == [b, d]
  {
    RemoveAllCons(a, [b, d], c);
    RemoveAllNone([b, d], c);
    assert [a] + [b, d] == [a, b, d];
  }

  /** removeAll on three elements of which only the middle one is in the collection. */
  lemma RemoveAllMiddleOfThree(a: string, b: string, d: string, c: seq<string>)
    requires a !in c && b in c && d !in c
    ensures RemoveAll([a, b, d], c) == [a, d]
  {
    RemoveAllCons(a, [b, d], c);
    RemoveAllCons(b, [d], c);
    RemoveAllNone([d], c);
    assert [a] + [b, d] == [a, b, d] && [b] + [d] == [b, d];
  }

  /** Removing "" makes Java's dropping of trailing empty pieces invisible. */
  lemma RemoveAllSplit(s: string, sep: char, c: seq<string>)
    requires "" in c
    ensures RemoveAll(Split(s, sep), c) == RemoveAll(Pieces(s, sep), c)
  {
    var ps := Pieces(s, sep);
    var r := Split(s, sep);
    var tail := ps[|r|..];
    assert ps == r + tail;
    assert forall i :: 0 <= i < |tail| ==> tail[i] == "";
    RemoveAllAppend(r, tail, c);
    RemoveAllEverything(tail, c);
  }

  lemma {:induction false} RemoveAllEverything(xs: seq<string>, c: seq<string>)
    requires forall i :: 0 <= i < |xs| ==> xs[i] in c
    ensures RemoveAll(xs, c) == []
  {
    if |xs| > 0 {
      RemoveAllEverything(xs[1..], c);
    }
  }

  // ---------------------------------------------------------------------------
  // Long.parseLong and Long.toString
  // ---------------------------------------------------------------------------

  const LONG_MIN: int := -0x8000_0000_0000_0000
  const LONG_MAX: int := 0x7FFF_FFFF_FFFF_FFFF

  predicate IsDigit(c: char) { '0' <= c <= '9' }

  predicate AllDigits(s: string) { forall i :: 0 <= i < |s| ==> IsDigit(s[i]) }

  /** The value of a string of decimal digits, most significant first. */
  function DigitsValue(ds: string): nat
    requires AllDigits(ds)
  {
    if |ds| == 0 then 0
    else DigitsValue(ds[..|ds| - 1]) * 10 + (ds[|ds| - 1] as int - '0' as int)
  }

  /** The part of a number after its optional sign. */
  function Unsigned(s: string): string
  {
    if |s| > 0 && (s[0] == '-' || s[0] == '+') then s[1..] else s
  }

  /**
    Long.parseLong(s): an optional '+' or '-', then one or more decimal digits,
    whose signed value fits in 64 bits; anything else is a NumberFormatException,
    here None.
  */
  function ParseLong(s: string): (r: Option<int>)
    ensures r.Some? ==> LONG_MIN <= r.value <= LONG_MAX
    ensures r.Some? ==> |s| > 0 && (IsDigit(s[0]) || s[0] == '+' || s[0] == '-')
    ensures r.Some? <==>
              && |s| > 0 && |Unsigned(s)| > 0 && AllDigits(Unsigned(s))
              && LONG_MIN <= (if s[0] == '-' then -(DigitsValue(Unsigned(s)) as int) else DigitsValue(Unsigned(s)) as int) <= LONG_MAX
    ensures r.Some? ==> r.value == (if s[0] == '-' then -(DigitsValue(Unsigned(s)) as int) else DigitsValue(Unsigned(s)) as int)
  {
    if |s| == 0 then None
    else
      var signed := s[0] == '-' || s[0] == '+';
      var digits := if signed then s[1..] else s;
      if |digits| == 0 || !AllDigits(digits) then None
      else
        var v: int := if s[0] == '-' then -(DigitsValue(digits) as int) else DigitsValue(digits);
        if LONG_MIN <= v <= LONG_MAX then Some(v) else None
  }

  function DigitChar(d: nat): char
    requires d < 10
  {
    ('0' as int + d) as char
  }

  /** The decimal digits of `n`, without leading zeros. */
  function DecimalString(n: nat): (r: string)
    ensures |r| >= 1 && AllDigits(r)
    ensures |r| > 1 ==> r[0] != '0'
  {
    if n < 10 then [DigitChar(n)] else DecimalString(n / 10) + [DigitChar(n % 10)]
  }

  /** Long.toString(v). */
  function LongToString(v: int): string
  {
    if v < 0 then "-" + DecimalString(-v) else DecimalString(v)
  }

  /** Long.toString writes a minus sign exactly for negative values, then the digits without leading zeros. */
  lemma LongToStringForm(v: int)
    ensures var r := LongToString(v);
      && |r| >= 1 && (r[0] == '-' <==> v < 0)
      && (v < 0 ==> |r| >= 2 && AllDigits(r[1..]) && (|r| > 2 ==> r[1] != '0'))
      && (v >= 0 ==> AllDigits(r) && (|r| > 1 ==> r[0] != '0'))
  {
    if v < 0 {
      assert ("-" + DecimalString(-v))[1..] == DecimalString(-v);
    }
  }

  lemma {:induction false} DecimalStringValue(n: nat)
    ensures DigitsValue(DecimalString(n)) == n
  {
    if n >= 10 {
      var d := DecimalString(n);
      DecimalStringValue(n / 10);
      assert d[..|d| - 1] == DecimalString(n / 10);
    }
  }

  /** A stored population reads back as the number that was parsed: parseLong undoes Long.toString. */
  lemma ParseLongToString(v: int)
    ensures LONG_MIN <= v <= LONG_MAX ==> ParseLong(LongToString(v)) == Some(v)
  {
    var str := LongToString(v);
    if v < 0 {
      var d := DecimalString(-v);
      assert str[1..] == d;
      assert Unsigned(str) == d;
      DecimalStringValue(-v);
    } else {
      assert Unsigned(str) == DecimalString(v);
      DecimalStringValue(v);
    }
  }

  /** A parsed value that Long.toString prints back is the canonical form: no '+', no leading zeros. */
  lemma ToStringParseLong(s: string)
    requires ParseLong(s).Some?
    requires |s| > 0 && s[0] != '+' && (|s| > 1 ==> s[0] != '0' && (s[0] == '-' ==> s[1] != '0'))
    ensures LongToString(ParseLong(s).value) == s
  {
    var neg := s[0] == '-';
    var digits := if neg then s[1..] else s;
    DigitsRoundTrip(digits);
    if neg {
      assert "-" + digits == s;
    }
  }

  lemma {:induction false} DigitsRoundTrip(ds: string)
    requires |ds| >= 1 && AllDigits(ds)
    requires |ds| > 1 ==> ds[0] != '0'
    ensures DecimalString(DigitsValue(ds)) == ds
  {
    var n := |ds|;
    if n == 1 {
    } else {
      var init := ds[..n - 1];
      DigitsRoundTrip(init);
      DigitsValuePositive(init);
      var v := DigitsValue(ds);
      assert v / 10 == DigitsValue(init);
      assert v % 10 == ds[n - 1] as int - '0' as int;
      assert init + [ds[n - 1]] == ds;
    }
  }

  lemma {:induction false} DigitsValuePositive(ds: string)
    requires |ds| >= 1 && AllDigits(ds) && ds[0] != '0'
    ensures DigitsValue(ds) >= 1
  {
    if |ds| > 1 {
      DigitsValuePositive(ds[..|ds| - 1]);
    }
  }

  // ---------------------------------------------------------------------------
  // Deleting characters
  // ---------------------------------------------------------------------------

  /** The characters of `s` that satisfy `keep`, in their order (a replace/replaceAll with ""). */
  function Keep(s: string, keep: char -> bool): (r: string)
    ensures |r| <= |s|
    ensures forall c :: c in r <==> c in s && keep(c)
  {
    if |s| == 0 then ""
    else (if keep(s[0]) then [s[0]] else "") + Keep(s[1..], keep)
  }

  /** Deleting works character by character, so it distributes over concatenation. */
  lemma {:induction false} KeepAppend(s: string, t: string, keep: char -> bool)
    ensures Keep(s + t, keep) == Keep(s, keep) + Keep(t, keep)
  {
    if |s| > 0 {
      assert (s + t)[1..] == s[1..] + t;
      KeepAppend(s[1..], t, keep);
    } else {
      assert s + t == t;
    }
  }

  /** Deleting again deletes nothing. */
  lemma {:induction false} KeepIdempotent(s: string, keep: char -> bool)
    ensures Keep(Keep(s, keep), keep) == Keep(s, keep)
  {
    if |s| > 0 {
      KeepIdempotent(s[1..], keep);
      var r := Keep(s, keep);
      if keep(s[0]) {
        assert r[0] == s[0] && r[1..] == Keep(s[1..], keep);
        assert Keep(r, keep) == [s[0]] + Keep(Keep(s[1..], keep), keep);
      } else {
        assert r == Keep(s[1..], keep);
      }
    }
  }

  /** Two deletions in a row delete the union of the two classes. */
  lemma {:induction false} KeepKeep(s: string, p: char -> bool, q: char -> bool, pq: char -> bool)
    requires forall c :: pq(c) == (p(c) && q(c))
    ensures Keep(Keep(s, p), q) == Keep(s, pq)
  {
    if |s| > 0 {
      KeepKeep(s[1..], p, q, pq);
      var r := Keep(s, p);
      if p(s[0]) {
        assert r[0] == s[0] && r[1..] == Keep(s[1..], p);
        assert Keep(r, q) == (if q(s[0]) then [s[0]] else "") + Keep(Keep(s[1..], p), q);
      } else {
        assert r == Keep(s[1..], p);
      }
    }
  }

  /** Deleting characters none of which occur leaves the string as it was. */
  lemma {:induction false} KeepAll(s: string, keep: char -> bool)
    requires forall c :: c in s ==> keep(c)
    ensures Keep(s, keep) == s
  {
    if |s| > 0 {
      KeepAll(s[1..], keep);
      assert [s[0]] + s[1..] == s;
    }
  }
}
