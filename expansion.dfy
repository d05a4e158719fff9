/**
  The document expander of the gazetteer indexer: one gazetteer row becomes
  one index document per name variant (alternate names, canonical name, ASCII
  name and the demonyms of names that are keys of the demonym table), each
  carrying the variant's abbreviation; the last document of the row carries
  the grouping marker.
*/
module Expansion {
  import opened Wrappers
  import opened JavaText

  /** The stop words removed before abbreviating; matched exactly, case included. */
  const STOP_WORDS: seq<string> := [
    "a", "an", "and", "are", "as", "at", "be", "but", "by",
    "for", "if", "in", "into", "", "is", "it", "no", "not", "of",
    "on", "or", "such", "that", "the", "their", "then", "there", "these",
    "they", "this", "to", "was", "will", "with", "he", "she", "patient",
    "&apos;d", "&apos;s", "&quot;", "&lt;", "&gt;", "his", "her"]

  /** The value of the grouping field on the last document of a row. */
  const END_MARK: string := "x"

  /** The stored and indexed fields of one name-variant document. */
  datatype Document = Document(
    idField: string,
    canonicalNameField: string,
    nameField: string,
    ngramsField: string,
    tokenField: string,
    countrycodeField: string,
    alternateccField: string,
    abbreviationField: string,
    populationField: int,
    idEndField: Option<string>)

  /** What makes a row fail: an unparsable population, or no name variant at all (`documents.get(-1)`). */
  datatype ExpansionError = NumberFormat(input: string) | IndexOutOfBounds(index: int)

  /** The demonym table: a name to its adjectival forms, in file order. */
  type DemonymTable = map<string, seq<string>>

  // ---------------------------------------------------------------------------
  // Name variants
  // ---------------------------------------------------------------------------

  /** The raw name pool: the comma-split alternate names, then the canonical name, then the ASCII name. */
  function NamePool(alternateNames: string, canonicalName: string, asciiName: string): (r: seq<string>)
  {
    Split(alternateNames, ',') + [canonicalName, asciiName]
  }

  /** What one pool entry adds: itself when non-empty, then its demonyms when it is a key of the table. */
  function Contribution(name: string, country2adj: DemonymTable): (r: seq<string>)
    ensures |r| == (if name != "" then 1 else 0) + (if name in country2adj then |country2adj[name]| else 0)
    ensures forall x :: x in r <==> (x == name && name != "") || (name in country2adj && x in country2adj[name])
  {
    (if |name| != 0 then [name] else []) + (if name in country2adj then country2adj[name] else [])
  }

  /** The name variants of a pool: the contributions of its entries, in pool order. */
  function Variants(pool: seq<string>, country2adj: DemonymTable): seq<string>
  {
    if |pool| == 0 then []
    else Variants(pool[..|pool| - 1], country2adj) + Contribution(pool[|pool| - 1], country2adj)
  }

  /** Expanding a pool piece by piece gives the same variants as expanding it whole. */
  lemma {:induction false} VariantsAppend(p: seq<string>, q: seq<string>, country2adj: DemonymTable)
    ensures Variants(p + q, country2adj) == Variants(p, country2adj) + Variants(q, country2adj)
    decreases |q|
  {
    if |q| == 0 {
      assert p + q == p;
    } else {
      var n := |q| - 1;
      assert (p + q)[..|p + q| - 1] == p + q[..n];
      VariantsAppend(p, q[..n], country2adj);
    }
  }

  /**
    Each pool entry's contribution sits between those of the entries before
    it and after it: demonyms follow their key immediately.
  */
  lemma VariantsSplice(pool: seq<string>, i: nat, country2adj: DemonymTable)
    requires i < |pool|
    ensures Variants(pool, country2adj)
         == Variants(pool[..i], country2adj) + Contribution(pool[i], country2adj)
            + Variants(pool[i + 1..], country2adj)
  {
    assert pool == pool[..i] + [pool[i]] + pool[i + 1..];
    VariantsAppend(pool[..i] + [pool[i]], pool[i + 1..], country2adj);
    VariantsAppend(pool[..i], [pool[i]], country2adj);
    assert [pool[i]][..0] == [];
  }

  /**
    A string is a variant exactly when it is a non-empty pool entry or a
    demonym of a pool entry that is a key of the table.
  */
  lemma {:induction false} VariantsMembership(pool: seq<string>, country2adj: DemonymTable, x: string)
    ensures x in Variants(pool, country2adj)
        <==> (x in pool && x != "")
             || (exists k :: k in pool && k in country2adj && x in country2adj[k])
  {
    if |pool| > 0 {
      var init, last := pool[..|pool| - 1], pool[|pool| - 1];
      VariantsMembership(init, country2adj, x);
      assert pool == init + [last];
      if x in Variants(pool, country2adj) && !(x in pool && x != "") {
        if x !in Variants(init, country2adj) {
          assert x in Contribution(last, country2adj);
          assert last in pool && last in country2adj && x in country2adj[last];
        } else {
          var k :| k in init && k in country2adj && x in country2adj[k];
          assert k in pool;
        }
      }
      if exists k :: k in pool && k in country2adj && x in country2adj[k] {
        var k :| k in pool && k in country2adj && x in country2adj[k];
        if k != last {
          assert k in init;
        }
      }
    }
  }

  /** The number of non-empty entries of a pool. */
  function NonEmptyCount(pool: seq<string>): nat
  {
    if |pool| == 0 then 0
    else NonEmptyCount(pool[..|pool| - 1]) + (if |pool[|pool| - 1]| != 0 then 1 else 0)
  }

  /** The number of demonyms the keys in a pool bring in (a key counts as often as it occurs). */
  function DemonymCount(pool: seq<string>, country2adj: DemonymTable): nat
  {
    if |pool| == 0 then 0
    else
      var last := pool[|pool| - 1];
      DemonymCount(pool[..|pool| - 1], country2adj) + (if last in country2adj then |country2adj[last]| else 0)
  }

  /** Duplicates are kept: one variant per non-empty entry plus one per demonym brought in. */
  lemma {:induction false} VariantsCount(pool: seq<string>, country2adj: DemonymTable)
    ensures |Variants(pool, country2adj)| == NonEmptyCount(pool) + DemonymCount(pool, country2adj)
  {
    if |pool| > 0 {
      VariantsCount(pool[..|pool| - 1], country2adj);
    }
  }

  /** There are no variants exactly when every entry is empty and brings no demonym. */
  lemma {:induction false} NoVariants(pool: seq<string>, country2adj: DemonymTable)
    ensures Variants(pool, country2adj) == []
        <==> forall i :: 0 <= i < |pool| ==> pool[i] == "" && (pool[i] in country2adj ==> country2adj[pool[i]] == [])
  {
    if |pool| > 0 {
      var init := pool[..|pool| - 1];
      NoVariants(init, country2adj);
      assert forall i :: 0 <= i < |init| ==> init[i] == pool[i];
    }
  }

  /** Without empty entries and without table keys, the variants are the pool itself, duplicates included. */
  lemma {:induction false} VariantsPlainPool(pool: seq<string>, country2adj: DemonymTable)
    requires forall i :: 0 <= i < |pool| ==> pool[i] != "" && pool[i] !in country2adj
    ensures Variants(pool, country2adj) == pool
  {
    if |pool| > 0 {
      var n := |pool| - 1;
      VariantsPlainPool(pool[..n], country2adj);
      assert pool[..n] + [pool[n]] == pool;
    }
  }

  /**
    Java's split drops the trailing empty alternate names; that changes the
    variants only when the empty string is a key of the demonym table.
  */
  lemma TrailingEmptyNamesIgnored(alternateNames: string, canonicalName: string, asciiName: string,
                                  country2adj: DemonymTable)
    requires "" !in country2adj
    ensures Variants(NamePool(alternateNames, canonicalName, asciiName), country2adj)
         == Variants(Pieces(alternateNames, ',') + [canonicalName, asciiName], country2adj)
  {
    var ps := Pieces(alternateNames, ',');
    var split := Split(alternateNames, ',');
    var tail := ps[|split|..];
    assert ps == split + tail;
    EmptyTailNoVariants(split, tail, [canonicalName, asciiName], country2adj);
  }

  /** Empty entries between two parts of a pool add no variant when "" is not a table key. */
  lemma EmptyTailNoVariants(front: seq<string>, tail: seq<string>, back: seq<string>, country2adj: DemonymTable)
    requires "" !in country2adj
    requires forall i :: 0 <= i < |tail| ==> tail[i] == ""
    ensures Variants(front + tail + back, country2adj) == Variants(front + back, country2adj)
  {
    assert front + tail + back == front + (tail + back);
    EmptyNamesNoVariants(tail, country2adj);
    VariantsAppend(tail, back, country2adj);
    VariantsAppend(front, tail + back, country2adj);
    VariantsAppend(front, back, country2adj);
  }

  lemma {:induction false} EmptyNamesNoVariants(pool: seq<string>, country2adj: DemonymTable)
    requires "" !in country2adj
    requires forall i :: 0 <= i < |pool| ==> pool[i] == ""
    ensures Variants(pool, country2adj) == []
  {
    if |pool| > 0 {
      EmptyNamesNoVariants(pool[..|pool| - 1], country2adj);
    }
  }

  /** A row whose canonical or ASCII name is non-empty always yields at least one document. */
  lemma NamedRowHasVariants(alternateNames: string, canonicalName: string, asciiName: string, country2adj: DemonymTable)
    requires canonicalName != "" || asciiName != ""
    ensures Variants(NamePool(alternateNames, canonicalName, asciiName), country2adj) != []
  {
    var pool := NamePool(alternateNames, canonicalName, asciiName);
    NoVariants(pool, country2adj);
    assert pool[|pool| - 2] == canonicalName && pool[|pool| - 1] == asciiName;
  }

  // ---------------------------------------------------------------------------
  // Abbreviation
  // ---------------------------------------------------------------------------

  /** The words of a name left after splitting on single spaces and removing the stop words. */
  function Survivors(name: string): (r: seq<string>)
    ensures forall i :: 0 <= i < |r| ==> r[i] != "" && ' ' !in r[i]
  {
    var words := Split(name, ' ');
    var r := RemoveAll(words, STOP_WORDS);
    assert forall i :: 0 <= i < |r| ==> r[i] in words && r[i] != "" by {
      EmptyIsStopWord();
      forall i | 0 <= i < |r| ensures r[i] in words && r[i] != "" {
        assert r[i] in r;
      }
    }
    r
  }

  /** Every stop word is removed: no surviving word is one. */
  lemma SurvivorsAreNoStopWords(name: string)
    ensures forall w :: w in Survivors(name) ==> w !in STOP_WORDS
  {
  }

  /** The first character of each word, concatenated. */
  function Initials(words: seq<string>): (r: string)
    requires forall i :: 0 <= i < |words| ==> |words[i]| > 0
    ensures |r| == |words|
    ensures forall i :: 0 <= i < |r| ==> r[i] == words[i][0]
  {
    if |words| == 0 then ""
    else Initials(words[..|words| - 1]) + words[|words| - 1][..1]
  }

  /** The abbreviation of a name: the initials of its surviving words. */
  function Abbreviation(name: string): (r: string)
    ensures |r| == |Survivors(name)|
    ensures forall i :: 0 <= i < |r| ==> r[i] == Survivors(name)[i][0]
  {
    Initials(Survivors(name))
  }

  /** The abbreviation is empty exactly when every word of the name is a stop word. */
  lemma AbbreviationEmpty(name: string)
    ensures Abbreviation(name) == "" <==> forall w :: w in Split(name, ' ') ==> w in STOP_WORDS
  {
    var words := Split(name, ' ');
    if Abbreviation(name) != "" {
      assert Survivors(name)[0] in Survivors(name);
    }
  }

  /** Trailing spaces do not change the surviving words. */
  lemma AbbreviationOfPieces(name: string)
    ensures Survivors(name) == RemoveAll(Pieces(name, ' '), STOP_WORDS)
  {
    RemoveAllSplit(name, ' ', STOP_WORDS);
  }

  /** A name made of words joined by single spaces survives as those words with the stop words removed. */
  lemma SurvivorsOfWords(ws: seq<string>)
    requires |ws| >= 1 && forall i :: 0 <= i < |ws| ==> ' ' !in ws[i]
    ensures Survivors(Join(ws, ' ')) == RemoveAll(ws, STOP_WORDS)
  {
    var name := Join(ws, ' ');
    PiecesJoin(ws, ' ');
    EmptyIsStopWord();
    RemoveAllSplit(name, ' ', STOP_WORDS);
    assert Survivors(name) == RemoveAll(Split(name, ' '), STOP_WORDS);
  }

  lemma EmptyIsStopWord()
    ensures "" in STOP_WORDS
  {
    assert STOP_WORDS[13] == "";
  }

  /** The abbreviation of words joined by single spaces is the initials of the words that are not stop words. */
  lemma AbbreviationOfWords(ws: seq<string>)
    requires |ws| >= 1 && forall i :: 0 <= i < |ws| ==> ' ' !in ws[i]
    ensures var kept := RemoveAll(ws, STOP_WORDS);
      && (forall i :: 0 <= i < |kept| ==> |kept[i]| > 0)
      && Abbreviation(Join(ws, ' ')) == Initials(kept)
  {
    SurvivorsOfWords(ws);
  }

  /** Abbreviates a name of three words separated by single spaces. */
  lemma AbbreviationOfThree(a: string, b: string, c: string)
    requires ' ' !in a && ' ' !in b && ' ' !in c
    ensures Survivors(a + " " + b + " " + c) == RemoveAll([a, b, c], STOP_WORDS)
  {
    JoinThree(a, b, c);
    SurvivorsOfWords([a, b, c]);
  }

  lemma JoinThree(a: string, b: string, c: string)
    ensures Join([a, b, c], ' ') == a + " " + b + " " + c
  {
    var ws := [a, b, c];
    assert Join(ws[2..], ' ') == c;
    assert Join(ws[1..], ' ') == b + [' '] + c;
  }

  /** Three words, none a stop word: three initials. */
  lemma AbbreviationNoStopWord(a: string, b: string, c: string)
    requires a != "" && b != "" && c != "" && ' ' !in a && ' ' !in b && ' ' !in c
    requires a !in STOP_WORDS && b !in STOP_WORDS && c !in STOP_WORDS
    ensures Abbreviation(a + " " + b + " " + c) == [a[0], b[0], c[0]]
  {
    var name := a + " " + b + " " + c;
    AbbreviationOfThree(a, b, c);
    RemoveAllNoneOfThree(a, b, c, STOP_WORDS);
    AbbreviationOfSurvivors(name, [a, b, c]);
  }

  /** Three words of which only the first is a stop word: the initials of the other two. */
  lemma AbbreviationFirstStopWord(a: string, b: string, c: string)
    requires a != "" && b != "" && c != "" && ' ' !in a && ' ' !in b && ' ' !in c
    requires a in STOP_WORDS && b !in STOP_WORDS && c !in STOP_WORDS
    ensures Abbreviation(a + " " + b + " " + c) == [b[0], c[0]]
  {
    var name := a + " " + b + " " + c;
    AbbreviationOfThree(a, b, c);
    RemoveAllFirstOfThree(a, b, c, STOP_WORDS);
    AbbreviationOfSurvivors(name, [b, c]);
  }

  /** Three words of which only the middle one is a stop word: the initials of the outer two. */
  lemma AbbreviationMiddleStopWord(a: string, b: string, c: string)
    requires a != "" && b != "" && c != "" && ' ' !in a && ' ' !in b && ' ' !in c
    requires a !in STOP_WORDS && b in STOP_WORDS && c !in STOP_WORDS
    ensures Abbreviation(a + " " + b + " " + c) == [a[0], c[0]]
  {
    var name := a + " " + b + " " + c;
    AbbreviationOfThree(a, b, c);
    RemoveAllMiddleOfThree(a, b, c, STOP_WORDS);
    AbbreviationOfSurvivors(name, [a, c]);
  }

  /** Once the surviving words are known, the abbreviation is their initials. */
  lemma AbbreviationOfSurvivors(name: string, kept: seq<string>)
    requires Survivors(name) == kept
    ensures forall i :: 0 <= i < |kept| ==> kept[i] != ""
    ensures Abbreviation(name) == Initials(kept)
  {
  }

  /** No stop word begins with a capital letter. */
  lemma StopWordsStartLowerCase()
    ensures forall i :: 0 <= i < |STOP_WORDS| ==> STOP_WORDS[i] == "" || !('A' <= STOP_WORDS[i][0] <= 'Z')
  {
  }

  /** Stop words are matched case-sensitively: a capitalised word is never removed. */
  lemma CapitalisedIsNoStopWord(w: string)
    requires w != "" && 'A' <= w[0] <= 'Z'
    ensures w !in STOP_WORDS
  {
    StopWordsStartLowerCase();
  }

  // ---------------------------------------------------------------------------
  // The expander
  // ---------------------------------------------------------------------------

  /** The words of `name`, split on single spaces, stop words removed, reduced to their first characters. */
  method AbbreviateName(name: string) returns (abbreviationName: string)
    ensures abbreviationName == Abbreviation(name)
  {
    var nameAllWords := Split(name, ' ');
    nameAllWords := RemoveAll(nameAllWords, STOP_WORDS);
    SurvivorsUnfold(name);
    abbreviationName := "";
    for k := 0 to |nameAllWords|
      invariant abbreviationName == Initials(nameAllWords[..k])
    {
      var temp := nameAllWords[k];
      assert nameAllWords[..k + 1][..k] == nameAllWords[..k];
      abbreviationName := abbreviationName + temp[..1];
    }
    assert nameAllWords[..|nameAllWords|] == nameAllWords;
  }

  lemma SurvivorsUnfold(name: string)
    ensures Survivors(name) == RemoveAll(Split(name, ' '), STOP_WORDS)
  {
  }

  /**
    The raw name pool, built as the indexer builds it: the split alternate
    names copied into an array two slots longer, which receive the canonical
    and the ASCII name.
  */
  method BuildNamePool(alternateNames: string, canonicalName: string, asciiName: string)
    returns (pool: seq<string>)
    ensures |pool| >= 2 && pool[|pool| - 2] == canonicalName && pool[|pool| - 1] == asciiName
    ensures pool[..|pool| - 2] == Split(alternateNames, ',')
    ensures pool == NamePool(alternateNames, canonicalName, asciiName)
  {
    var alternateNameArray := Split(alternateNames, ',');
    var a := |alternateNameArray|;
    var b := 2;
    var allNames := new string[a + b];
    forall k | 0 <= k < a {
      allNames[k] := alternateNameArray[k];
    }
    allNames[a], allNames[a + 1] := canonicalName, asciiName;
    pool := allNames[..];
  }

  /**
    The variant list of a pool: each non-empty entry, each followed by the
    demonyms of the entry when the entry (empty or not) is a key of the table.
  */
  method CollectVariants(pool: seq<string>, country2adj: DemonymTable) returns (names: seq<string>)
    ensures names == Variants(pool, country2adj)
  {
    names := [];
    for i := 0 to |pool|
      invariant names == Variants(pool[..i], country2adj)
    {
      var nameTemp := pool[i];
      ghost var before := names;
      if |nameTemp| != 0 {
        names := names + [nameTemp];
      }
      if nameTemp in country2adj {
        var tempList := country2adj[nameTemp];
        ghost var kept := names;
        for j := 0 to |tempList|
          invariant names == kept + tempList[..j]
        {
          names := names + [tempList[j]];
        }
        assert tempList[..|tempList|] == tempList;
      }
      assert names == before + Contribution(nameTemp, country2adj);
      assert pool[..i + 1][..i] == pool[..i];
    }
    assert pool[..|pool|] == pool;
  }

  /** Every field of `d` except the grouping marker, as the expander fills it in for the variant `name`. */
  ghost predicate Describes(d: Document, id: string, canonicalName: string, name: string,
                            countrycode: string, alternatecc: string, population: int)
  {
    && d.idField == id
    && d.canonicalNameField == canonicalName
    && d.nameField == name && d.ngramsField == name && d.tokenField == name
    && d.countrycodeField == countrycode
    && d.alternateccField == alternatecc
    && d.abbreviationField == Abbreviation(name)
    && d.populationField == population
  }

  /**
    One unmarked document per variant, in order, each describing its variant;
    the first variant's document already fails on an unparsable population.
  */
  method NameDocuments(id: string, canonicalName: string, names: seq<string>,
                       countrycode: string, alternatecc: string, population: string)
    returns (r: Result<seq<Document>, ExpansionError>)
    ensures names == [] ==> r == Ok([])
    ensures names != [] && ParseLong(population).None? ==> r == Err(NumberFormat(population))
    ensures ParseLong(population).Some? ==>
              && r.Ok? && |r.value| == |names|
              && forall i :: 0 <= i < |names| ==>
                   Describes(r.value[i], id, canonicalName, names[i], countrycode, alternatecc,
                             ParseLong(population).value)
                   && r.value[i].idEndField == None
  {
    var documents: seq<Document> := [];
    for k := 0 to |names|
      invariant |documents| == k
      invariant k > 0 ==> ParseLong(population).Some?
      invariant forall j :: 0 <= j < k ==>
                  Describes(documents[j], id, canonicalName, names[j], countrycode, alternatecc,
                            ParseLong(population).value)
                  && documents[j].idEndField == None
    {
      var name := names[k];
      var abbreviationName := AbbreviateName(name);
      var parsed := ParseLong(population);
      if parsed.None? {
        return Err(NumberFormat(population));
      }
      var document := Document(id, canonicalName, name, name, name, countrycode, alternatecc,
                               abbreviationName, parsed.value, None);
      assert Describes(document, id, canonicalName, names[k], countrycode, alternatecc, parsed.value);
      documents := documents + [document];
    }
    return Ok(documents);
  }

  /**
    The documents of one gazetteer row: one per name variant, in variant
    order, the last one alone carrying the grouping marker. The row fails when
    it has no variant (before the population is ever looked at) or when its
    population is not a 64-bit integer.
  */
  method CreateDocumentGeonames(id: string, canonicalName: string, asciiName: string, alternateNames: string,
                                countrycode: string, alternatecc: string, population: string,
                                country2adj: DemonymTable)
    returns (r: Result<seq<Document>, ExpansionError>)
    ensures var names := Variants(NamePool(alternateNames, canonicalName, asciiName), country2adj);
      && (r == Err(IndexOutOfBounds(-1)) <==> names == [])
      && (r == Err(NumberFormat(population)) <==> names != [] && ParseLong(population).None?)
      && (r.Ok? <==> names != [] && ParseLong(population).Some?)
      && (r.Ok? ==>
            && |r.value| == |names|
            && (forall i :: 0 <= i < |names| ==>
                  Describes(r.value[i], id, canonicalName, names[i], countrycode, alternatecc,
                            ParseLong(population).value))
            && (forall i :: 0 <= i < |names| ==>
                  r.value[i].idEndField == if i == |names| - 1 then Some(END_MARK) else None))
  {
    var allNames := BuildNamePool(alternateNames, canonicalName, asciiName);
    var names := CollectVariants(allNames, country2adj);
    var built := NameDocuments(id, canonicalName, names, countrycode, alternatecc, population);
    if built.Err? {
      return built;
    }
    if |names| == 0 {
      return Err(IndexOutOfBounds(-1));
    }
    var documents := built.value;
    var last := |names| - 1;
    ghost var value := ParseLong(population).value;
    documents := documents[last := documents[last].(idEndField := Some(END_MARK))];
    assert forall j :: 0 <= j < |names| ==>
      documents[j] == if j == last then built.value[j].(idEndField := Some(END_MARK)) else built.value[j];
    assert forall j :: 0 <= j < |names| ==>
      Describes(documents[j], id, canonicalName, names[j], countrycode, alternatecc, value);
    r := Ok(documents);
  }
}
