/** Worked cases of the expansion rules on real place names. */
module WorkedCases {
  import opened JavaText
  import opened Expansion

  /**
    The row of Paris, whose alternate names are "Paris,City of Light": four
    variants, the duplicates kept, and no demonym, since no name of the row
    is a key of the table (its country code is never looked up).
  */
  lemma ParisVariants(alternateNames: string, canonicalName: string, asciiName: string,
                      country2adj: DemonymTable)
    requires alternateNames == "Paris,City of Light" && canonicalName == "Paris" && asciiName == "Paris"
    requires country2adj == map["France" := ["French"]]
    ensures Variants(NamePool(alternateNames, canonicalName, asciiName), country2adj)
         == ["Paris", "City of Light", "Paris", "Paris"]
  {
    var pool := ["Paris", "City of Light", "Paris", "Paris"];
    ParisPool(alternateNames, canonicalName, asciiName);
    assert forall i :: 0 <= i < |pool| ==> pool[i] != "" && pool[i] !in country2adj by {
      assert "Paris" != "France" && "City of Light" != "France";
    }
    VariantsPlainPool(pool, country2adj);
  }

  /** The pool of the Paris row: the two alternate names, then the canonical and the ASCII name. */
  lemma ParisPool(alternateNames: string, canonicalName: string, asciiName: string)
    requires alternateNames == "Paris,City of Light" && canonicalName == "Paris" && asciiName == "Paris"
    ensures NamePool(alternateNames, canonicalName, asciiName) == ["Paris", "City of Light", "Paris", "Paris"]
  {
    var a, b := "Paris", "City of Light";
    assert alternateNames == a + [','] + b;
    SplitTwo(a, ',', b);
  }

  /**
    The row of France, with no alternate names: the empty alternate-name
    field still gives one (empty) pool entry, which yields no variant, and
    each of the two occurrences of "France" is followed by its demonym.
  */
  lemma FranceVariants(alternateNames: string, canonicalName: string, asciiName: string,
                       country2adj: DemonymTable)
    requires alternateNames == "" && canonicalName == "France" && asciiName == "France"
    requires country2adj == map["France" := ["French"]]
    ensures NamePool(alternateNames, canonicalName, asciiName) == ["", "France", "France"]
    ensures Variants(NamePool(alternateNames, canonicalName, asciiName), country2adj)
         == ["France", "French", "France", "French"]
  {
    var pool := NamePool(alternateNames, canonicalName, asciiName);
    assert pool == ["", "France", "France"];
    assert pool[..2][..1] == [""];
    assert pool[..2] == ["", "France"];
    assert Variants([""], country2adj) == [];
    assert Variants(pool[..2], country2adj) == ["France", "French"];
  }

  /** Stop words are case-sensitive: a capitalised "The" is kept. */
  lemma AbbreviationTheUnitedKingdom(name: string)
    requires name == "The United Kingdom"
    ensures Abbreviation(name) == "TUK"
  {
    var a, b, c := "The", "United", "Kingdom";
    assert name == a + " " + b + " " + c;
    StopWordsCapitalised(a, b, c);
    AbbreviationNoStopWord(a, b, c);
  }

  /** In lower case, "the" is a stop word and leaves no initial. */
  lemma AbbreviationLowerTheUnitedKingdom(name: string)
    requires name == "the United Kingdom"
    ensures Abbreviation(name) == "UK"
  {
    var a, b, c := "the", "United", "Kingdom";
    assert name == a + " " + b + " " + c;
    StopWordsLowerCase(a, b, c);
    AbbreviationFirstStopWord(a, b, c);
  }

  /** "of" is a stop word, so "City of Light" has two initials, not three. */
  lemma AbbreviationCityOfLight(name: string)
    requires name == "City of Light"
    ensures Abbreviation(name) == "CL"
  {
    var a, b, c := "City", "of", "Light";
    assert name == a + " " + b + " " + c;
    StopWordsCityOfLight(a, b, c);
    AbbreviationMiddleStopWord(a, b, c);
  }

  /** Stop-word membership of the words in the cases above. */
  lemma StopWordsCapitalised(a: string, b: string, c: string)
    requires a == "The" && b == "United" && c == "Kingdom"
    ensures a !in STOP_WORDS && b !in STOP_WORDS && c !in STOP_WORDS
  {
    CapitalisedIsNoStopWord(a);
    CapitalisedIsNoStopWord(b);
    CapitalisedIsNoStopWord(c);
  }

  lemma StopWordsLowerCase(a: string, b: string, c: string)
    requires a == "the" && b == "United" && c == "Kingdom"
    ensures a in STOP_WORDS && b !in STOP_WORDS && c !in STOP_WORDS
  {
    assert STOP_WORDS[23] == a;
    CapitalisedIsNoStopWord(b);
    CapitalisedIsNoStopWord(c);
  }

  lemma StopWordsCityOfLight(a: string, b: string, c: string)
    requires a == "City" && b == "of" && c == "Light"
    ensures a !in STOP_WORDS && b in STOP_WORDS && c !in STOP_WORDS
  {
    CapitalisedIsNoStopWord(a);
    assert STOP_WORDS[18] == b;
    CapitalisedIsNoStopWord(c);
  }
}
