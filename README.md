# Gazetteer indexer and cascading matcher

A Dafny model of the entity-linking core of `BuildIndex`. Two parts of that
core turn rows of a geographic gazetteer into Lucene documents and resolve
place-name mentions against them.

- **Record expansion** (`createDocumentGeonames`). One gazetteer row becomes
  one document per name variant.
  - The name pool is the comma-split alternate names, then the canonical
    name, then the ASCII name.
  - Every non-empty pool entry is a variant.
  - When an entry is a key of the country-to-demonym table, it is followed by
    its demonyms. This holds for empty entries too.
  - Every document copies the row's id, canonical name, country codes and
    parsed population.
  - Every document carries the variant's abbreviation: the first characters
    of its space-separated words, with the stop words removed exactly and
    case-sensitively.
  - Only the last document carries the grouping marker `IDEndField = "x"`.
    That marker closes the row's document block, so the grouped search
    returns one group per row.
- **Cascading matcher** (`searchByMention` and `scoredEntries`).
  - A mention is stripped of punctuation. This gives the spaced form, and the
    no-space form when the spaces are stripped too.
  - Six grouped searches are tried in a fixed order: exact, fuzzy, n-gram,
    token, abbreviation and country code. Each has its own field, query form
    and group cap.
  - The first search that returns any group decides the result.
  - Each group becomes the entry `[id, population, strategy name, score]`.

Files:
- `wrappers.dfy`: `Option` and `Result`.
- `java_text.dfy`: the parts of `java.lang` and `java.util` the core relies on.
  - `String.split` with ',' or ' ' (a one-character separator that is not a
    regex metacharacter), including Java's dropping of trailing empty pieces.
  - `List.removeAll`.
  - `Long.parseLong` and `Long.toString`.
  - Deleting every character of a class from a string.
- `expansion.dfy`: the record expander.
  - Reference functions: `NamePool`, `Variants` and `Abbreviation`.
  - Their lemmas.
  - The imperative methods that mirror the Java loops, each proved against
    those functions.
- `worked_cases.dfy`: the expansion rules applied to concrete rows and names.
- `matcher.dfy`: the matcher.
  - Mention normalisation.
  - Result shaping.
  - The cascade, with its reference functions `Plan`, `Cascade` and
    `Attempted`, the short-circuit lemmas, and the method with its chain of
    `if (results.isEmpty())` steps.

The search engine is a parameter: a function from (field, query string, group
cap) to either the groups found (or null) or an error. The error stands for
Lucene's `ParseException` or `IOException`. An error from any strategy ends
the cascade and propagates to the caller, as the exception does in Java.

"City of Light" abbreviates to "CL", because "of" is a stop word
(`WorkedCases.AbbreviationCityOfLight`).

## Model

| member | source | states |
|---|---|---|
| JavaText.Split | src/com/lucene/search/BuildIndex.java:193 | Java's split: a string without the separator gives itself as the only piece. Otherwise the result is the list of pieces with every trailing empty piece removed: what is dropped is empty, and the last piece kept is not |
| JavaText.SplitTwo | src/com/lucene/search/BuildIndex.java:193 | Two separator-free strings, the second non-empty, joined by the separator, split back into the two |
| JavaText.SplitJoin | src/com/lucene/search/BuildIndex.java:193 | For a string that does not end with the separator, joining the split pieces gives the string back |
| JavaText.PiecesJoin | src/com/lucene/search/BuildIndex.java:193 | Cutting a join of separator-free strings returns those strings |
| JavaText.JoinPieces | src/com/lucene/search/BuildIndex.java:193 | Joining the pieces of a string with its separator gives the string back |
| JavaText.RemoveAll | src/com/lucene/search/BuildIndex.java:228 | removeAll keeps exactly the elements not in the collection, and the result is never longer than the input |
| JavaText.RemoveAllAppend | src/com/lucene/search/BuildIndex.java:228 | removeAll distributes over concatenation |
| JavaText.RemoveAllCons | src/com/lucene/search/BuildIndex.java:228 | removeAll decides the head of a list on its own: it is dropped exactly when it is in the collection |
| JavaText.RemoveAllNone | src/com/lucene/search/BuildIndex.java:228 | A list none of whose elements is in the collection is left as it was |
| JavaText.RemoveAllSplit | src/com/lucene/search/BuildIndex.java:195-228 | Because "" is removed, Java's dropping of trailing empty pieces makes no difference after removeAll |
| JavaText.ParseLong | src/com/lucene/search/BuildIndex.java:246 | A string parses exactly when, after an optional '+' or '-', it is one or more digits whose signed value fits in 64 bits. The result is that signed value, so "007" and "+7" read as 7 and "+x" fails |
| JavaText.ParseLongToString | src/com/lucene/search/BuildIndex.java:372 | A 64-bit population printed by Long.toString parses back to the same value |
| JavaText.ToStringParseLong | src/com/lucene/search/BuildIndex.java:246 | A canonical decimal string (no '+', no leading zero) that parses is printed back unchanged |
| JavaText.LongToString | src/com/lucene/search/BuildIndex.java:372 | The definition of Long.toString; its properties are LongToStringForm, ParseLongToString and ToStringParseLong |
| JavaText.LongToStringForm | src/com/lucene/search/BuildIndex.java:372 | Long.toString writes a minus sign exactly for negative values, then decimal digits without leading zeros |
| JavaText.Keep | src/com/lucene/search/BuildIndex.java:302-303 | Deleting a class of characters keeps exactly the characters outside it, and never lengthens the string |
| JavaText.KeepAppend | src/com/lucene/search/BuildIndex.java:302-303 | Deleting works character by character: it distributes over concatenation, so with Keep's contract on one-character strings it keeps the other characters in their order and number |
| JavaText.KeepIdempotent | src/com/lucene/search/BuildIndex.java:302-303 | Deleting a class of characters a second time changes nothing |
| JavaText.KeepKeep | src/com/lucene/search/BuildIndex.java:302-303 | Two deletions in a row equal one deletion of both classes |
| Expansion.NamePool | src/com/lucene/search/BuildIndex.java:193-203 | The definition of the pool: the split alternate names, then the canonical name, then the ASCII name. BuildNamePool is proved to build it |
| Expansion.Contribution | src/com/lucene/search/BuildIndex.java:204-216 | What one entry adds: itself exactly when non-empty, then its demonyms exactly when it is a key of the table (an empty entry included); its length and its members are stated |
| Expansion.Variants | src/com/lucene/search/BuildIndex.java:204-216 | The definition of the variant list, the contributions in pool order; its properties are VariantsAppend, VariantsSplice, VariantsMembership, VariantsCount and NoVariants |
| Expansion.VariantsAppend | src/com/lucene/search/BuildIndex.java:204-216 | Expanding a concatenated pool gives the concatenation of the two expansions |
| Expansion.VariantsSplice | src/com/lucene/search/BuildIndex.java:204-216 | The contribution of each pool entry (itself if non-empty, then its demonyms) sits exactly between the expansions of the entries before and after it |
| Expansion.VariantsMembership | src/com/lucene/search/BuildIndex.java:204-216 | A string is a variant if and only if it is a non-empty pool entry or a demonym of a pool entry that is a table key |
| Expansion.VariantsCount | src/com/lucene/search/BuildIndex.java:204-216 | Duplicates are kept: the number of variants is the number of non-empty entries plus the number of demonyms their keys bring in |
| Expansion.NoVariants | src/com/lucene/search/BuildIndex.java:204-216 | The variant list is empty if and only if every pool entry is empty and brings no demonym |
| Expansion.VariantsPlainPool | src/com/lucene/search/BuildIndex.java:204-216 | With no empty entry and no table key in the pool, the variants are the pool itself, in order |
| Expansion.TrailingEmptyNamesIgnored | src/com/lucene/search/BuildIndex.java:193-216 | When "" is not a table key, splitting the alternate names with or without Java's trailing-empty removal gives the same variants |
| Expansion.EmptyTailNoVariants | src/com/lucene/search/BuildIndex.java:204-216 | Empty entries anywhere in a pool add no variant when "" is not a table key |
| Expansion.NamedRowHasVariants | src/com/lucene/search/BuildIndex.java:194-216 | A row whose canonical or ASCII name is non-empty always has a variant, so it never reaches the out-of-bounds failure |
| Expansion.Survivors | src/com/lucene/search/BuildIndex.java:195-228 | No surviving word is empty or contains a space, so `substring(0,1)` never fails on one |
| Expansion.SurvivorsAreNoStopWords | src/com/lucene/search/BuildIndex.java:195-228 | No surviving word is a stop word |
| Expansion.SurvivorsOfWords | src/com/lucene/search/BuildIndex.java:227-228 | A name made of space-free words joined by single spaces survives as those words with the stop words removed, in order |
| Expansion.Initials | src/com/lucene/search/BuildIndex.java:231-243 | One character per word, each the word's first character, in word order |
| Expansion.Abbreviation | src/com/lucene/search/BuildIndex.java:227-243 | The abbreviation is as long as the list of surviving words, and its i-th character is the first character of the i-th surviving word |
| Expansion.AbbreviationEmpty | src/com/lucene/search/BuildIndex.java:195-243 | The abbreviation is empty if and only if every space-separated word is a stop word |
| Expansion.AbbreviationOfWords | src/com/lucene/search/BuildIndex.java:227-243 | The abbreviation of space-free words joined by single spaces is the initials of the words that are not stop words |
| Expansion.AbbreviationOfPieces | src/com/lucene/search/BuildIndex.java:227-228 | Trailing spaces do not change the surviving words |
| Expansion.AbbreviationOfThree | src/com/lucene/search/BuildIndex.java:227-228 | The survivors of three space-separated words are those words with the stop words removed |
| Expansion.AbbreviationNoStopWord | src/com/lucene/search/BuildIndex.java:227-243 | Three words, none a stop word, give three initials |
| Expansion.AbbreviationFirstStopWord | src/com/lucene/search/BuildIndex.java:227-243 | A leading stop word gives no initial |
| Expansion.AbbreviationMiddleStopWord | src/com/lucene/search/BuildIndex.java:227-243 | A stop word between two words gives no initial |
| Expansion.StopWordsStartLowerCase | src/com/lucene/search/BuildIndex.java:195-199 | No stop word begins with a capital letter |
| Expansion.CapitalisedIsNoStopWord | src/com/lucene/search/BuildIndex.java:195-199 | Stop words are matched case-sensitively, so a capitalised word is never removed |
| Expansion.AbbreviateName | src/com/lucene/search/BuildIndex.java:227-243 | The loop computes exactly the abbreviation, whose length and characters are stated by Abbreviation |
| Expansion.BuildNamePool | src/com/lucene/search/BuildIndex.java:193-203 | The grown array holds the split alternate names, then the canonical name, then the ASCII name |
| Expansion.CollectVariants | src/com/lucene/search/BuildIndex.java:204-216 | The loops produce exactly the variant list of the pool |
| Expansion.NameDocuments | src/com/lucene/search/BuildIndex.java:218-249 | The document loop: no variants give no documents. Otherwise an unparsable population fails the row, and a parsable one gives one unmarked document per variant, in order, each with the row's fields, the variant and its abbreviation |
| Expansion.CreateDocumentGeonames | src/com/lucene/search/BuildIndex.java:190-253 | The call fails with index -1 exactly when there is no variant, and with a number-format error exactly when there are variants and the population does not parse. Otherwise it gives one document per variant, in order, each with the row's fields, the variant and its abbreviation, and the marker on the last document only |
| WorkedCases.ParisPool | src/com/lucene/search/BuildIndex.java:193-203 | The Paris row's pool is its two alternate names, then "Paris" twice |
| WorkedCases.ParisVariants | src/com/lucene/search/BuildIndex.java:193-216 | "Paris,City of Light" / "Paris" / "Paris" gives four variants, duplicates kept |
| WorkedCases.FranceVariants | src/com/lucene/search/BuildIndex.java:193-216 | With no alternate names the pool still starts with an empty entry, and each "France" is followed by its demonym |
| WorkedCases.AbbreviationTheUnitedKingdom | src/com/lucene/search/BuildIndex.java:195-243 | "The United Kingdom" abbreviates to "TUK" |
| WorkedCases.AbbreviationLowerTheUnitedKingdom | src/com/lucene/search/BuildIndex.java:195-243 | "the United Kingdom" abbreviates to "UK" |
| WorkedCases.AbbreviationCityOfLight | src/com/lucene/search/BuildIndex.java:195-243 | "City of Light" abbreviates to "CL" |
| Matcher.EntryOf | src/com/lucene/search/BuildIndex.java:371-372 | An entry carries the head document's id, the strategy name and the group's score, and its population text parses back to the stored population |
| Matcher.Shape | src/com/lucene/search/BuildIndex.java:370-374 | One entry per group, in group order, each tagged with the strategy name |
| Matcher.Entries | src/com/lucene/search/BuildIndex.java:368-376 | A null result gives no entries; otherwise one entry per group, in group order |
| Matcher.ScoredEntries | src/com/lucene/search/BuildIndex.java:363-377 | A search error propagates, a null result gives no entries, and otherwise there is one entry per group, in order. The result is the strategy's outcome |
| Matcher.IsPunct | src/com/lucene/search/BuildIndex.java:302 | The definition of the class `[\pP\p{Punct}]`: the POSIX punctuation characters below 128, the Unicode punctuation category above; its ASCII part is characterised by AsciiPunctIsGraphicNotAlnum |
| Matcher.AsciiPunctIsGraphicNotAlnum | src/com/lucene/search/BuildIndex.java:302 | Below 128 the class is exactly the visible ASCII characters that are neither letters nor digits |
| Matcher.Filtered | src/com/lucene/search/BuildIndex.java:302 | The spaced form holds exactly the mention's non-punctuation characters and is never longer than the mention |
| Matcher.FilteredNoSpace | src/com/lucene/search/BuildIndex.java:303 | The no-space form holds exactly the mention's characters that are neither punctuation nor spaces, and is never longer than the mention |
| Matcher.FilteredIdempotent | src/com/lucene/search/BuildIndex.java:302-303 | Normalising a mention twice changes nothing, in either form |
| Matcher.FilteredNoSpaceOnePass | src/com/lucene/search/BuildIndex.java:302-303 | The no-space form is the mention with punctuation and spaces deleted in one pass |
| Matcher.Plan | src/com/lucene/search/BuildIndex.java:313-332 | The definition of the six strategies in order, with their fields, query forms and caps (3000, 5, 60, 1200, 5000, 5000); its properties are PlanQueries, and SearchByMention is proved to run it |
| Matcher.PlanQueries | src/com/lucene/search/BuildIndex.java:302-333 | There are six queries. None has punctuation except the fuzzy query's final '~', and the fuzzy query without that '~' is the exact query. Only the n-gram and token queries can contain spaces |
| Matcher.Run | src/com/lucene/search/BuildIndex.java:363-377 | Every entry of a strategy's outcome is tagged with that strategy's name |
| Matcher.Cascade | src/com/lucene/search/BuildIndex.java:313-333 | The definition of the cascade: the first outcome that is an error or non-empty, else empty; its properties are CascadeShortCircuit, CascadeFirstNonEmpty, CascadeExhausted and CascadeEntriesTagged |
| Matcher.Attempted | src/com/lucene/search/BuildIndex.java:313-333 | The definition of the strategies the cascade runs; CascadeShortCircuit states that they form a prefix of the plan ending at the deciding strategy |
| Matcher.CascadeShortCircuit | src/com/lucene/search/BuildIndex.java:313-333 | The strategies run form a non-empty prefix of the plan. Each one but the last came back empty, and the cascade stops early only on a non-empty or failed outcome. The result is that of the last strategy run |
| Matcher.CascadeFirstNonEmpty | src/com/lucene/search/BuildIndex.java:313-333 | When strategies 0..k-1 come back empty and strategy k does not, exactly strategies 0..k run and k's outcome is the result |
| Matcher.CascadeExhausted | src/com/lucene/search/BuildIndex.java:313-333 | When every strategy comes back empty, all six run and the result is empty, not an error |
| Matcher.CascadeEntriesTagged | src/com/lucene/search/BuildIndex.java:313-333 | Every entry in the result is tagged with the name of the last strategy run |
| Matcher.ProgressStep | src/com/lucene/search/BuildIndex.java:318-333 | Each `if (results.isEmpty())` step runs the next strategy only after an empty outcome, and keeps the cascade's progress |
| Matcher.SearchByMention | src/com/lucene/search/BuildIndex.java:277-354 | The chain of steps computes the cascade over the six strategies (exact, fuzzy, n-gram, token, abbreviation, country code) with their fields, query forms and caps, and runs exactly the strategies the cascade attempts |

## Left out

- Lucene itself is not modelled:
  - `IndexWriter`, `IndexSearcher`, `GroupingSearch` and `QueryParser.parse`, including what the "~" suffix means to the parser.
  - The analyzers and `PerFieldAnalyzerWrapper`, whose classes are not part of this model.
  - The grouped search is the abstract `Index` parameter. Its ranking, scoring, parsing and grouping by the end marker are that parameter's business.
- `geonamesCreateWriter` (src/com/lucene/search/BuildIndex.java:256-275) and `createSearcher` are configuration and I/O. They are not modelled.
- `main` is not modelled: its file reading and writing, console output, path constants and commented-out code.
- The `System.out.println` calls in `searchByMention` are not modelled, because they are console output.
- `Float.toString(maxScore)` is floating point. The score is an opaque string carried unchanged.
- The Unicode punctuation category `\pP` above code point 127 is the `unicodePunct` parameter, not a Unicode table.
- JavaText.ParseLong: accepts only ASCII digits. Java also accepts other Unicode decimal digits.
- Matcher.EntryOf: the population text is `Long.toString` of the stored value. The source computes `String.valueOf(headDoc.get("populationField"))`. Reading a stored numeric field back as its decimal text is Lucene's `Document.get` behaviour, which is not part of this model.
- Expansion.Initials: takes the first `char` of a word. This is Java's `substring(0,1)` on a UTF-16 string, so supplementary characters, which need two UTF-16 units, are not modelled.
- A group always has a head document in the model. A group without any document would throw at `scoreDocs[0]` in Java; this is not modelled.
- Matcher.SearchByMention: the record of the strategies that ran is ghost. The Java method keeps no such record; it is there to state the short circuit.
