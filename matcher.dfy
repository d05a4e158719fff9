/**
  The cascading matcher: a mention is stripped of punctuation (and, for some
  strategies, of spaces) and run through six grouped searches in a fixed
  order; the first that finds any group decides the result, which is shaped
  into one candidate entry per group.
*/
module Matcher {
  import opened Wrappers
  import opened JavaText
  import opened Expansion

  /** The index fields a query can be parsed against. */
  datatype Field = NameField | NgramsField | TokenField | CountrycodeField | AlternateccField | AbbreviationField

  /** One group of a grouped search: its best document and its maximum score as the engine prints it. */
  datatype Group = Group(head: Document, maxScore: string)

  /** What the grouped search hands back: null, or its groups in rank order. */
  datatype TopGroups = NullGroups | Groups(groups: seq<Group>)

  /** A query string the parser rejects, or a failure of the index itself. */
  datatype SearchError = ParseFailure | IndexFailure

  /**
    The index: the grouped search (grouped on the end-marker field) of a
    field with a query string, keeping at most `cap` groups. Its ranking,
    scoring and parsing are outside the model.
  */
  type Index = (Field, string, nat) -> Result<TopGroups, SearchError>

  /** One candidate: [id, population, strategy name, score]. */
  datatype Entry = Entry(id: string, population: string, strategy: string, score: string)

  // ---------------------------------------------------------------------------
  // Result shaping
  // ---------------------------------------------------------------------------

  /** The entry of one group: its head's id and population, the strategy name, the group's score. */
  function EntryOf(g: Group, strategy: string): (e: Entry)
    ensures e.id == g.head.idField && e.strategy == strategy && e.score == g.maxScore
    ensures LONG_MIN <= g.head.populationField <= LONG_MAX ==>
              ParseLong(e.population) == Some(g.head.populationField)
  {
    ParseLongToString(g.head.populationField);
    Entry(g.head.idField, LongToString(g.head.populationField), strategy, g.maxScore)
  }

  /** One entry per group, in group order, all tagged with `strategy`. */
  function Shape(groups: seq<Group>, strategy: string): (r: seq<Entry>)
    ensures |r| == |groups|
    ensures forall i :: 0 <= i < |r| ==> r[i] == EntryOf(groups[i], strategy)
    ensures forall i :: 0 <= i < |r| ==> r[i].strategy == strategy
  {
    if |groups| == 0 then []
    else
      var init := Shape(groups[..|groups| - 1], strategy);
      var last := EntryOf(groups[|groups| - 1], strategy);
      init + [last]
  }

  /** The entries of a grouped search; a null result gives no entries. */
  function Entries(top: TopGroups, strategy: string): (r: seq<Entry>)
    ensures top.NullGroups? ==> r == []
    ensures top.Groups? ==>
              |r| == |top.groups| && forall i :: 0 <= i < |r| ==> r[i] == EntryOf(top.groups[i], strategy)
  {
    match top
    case NullGroups => []
    case Groups(gs) => Shape(gs, strategy)
  }

  /**
    Runs one grouped search and shapes its groups into entries tagged with
    `strategy`; a search that throws makes this throw.
  */
  method ScoredEntries(index: Index, field: Field, querystring: string, maxHits: nat, strategy: string)
    returns (r: Result<seq<Entry>, SearchError>)
    ensures index(field, querystring, maxHits).Err? ==> r == Err(index(field, querystring, maxHits).error)
    ensures index(field, querystring, maxHits) == Ok(NullGroups) ==> r == Ok([])
    ensures index(field, querystring, maxHits).Ok? && index(field, querystring, maxHits).value.Groups? ==>
              var groups := index(field, querystring, maxHits).value.groups;
              && r.Ok? && |r.value| == |groups|
              && forall i :: 0 <= i < |groups| ==> r.value[i] == EntryOf(groups[i], strategy)
    ensures r == Run(index, Strategy(strategy, field, querystring, maxHits))
  {
    var topGroups := index(field, querystring, maxHits);
    if topGroups.Err? {
      return Err(topGroups.error);
    }
    var listOLists: seq<Entry> := [];
    if topGroups.value.NullGroups? {
      return Ok(listOLists);
    }
    var groups := topGroups.value.groups;
    for k := 0 to |groups|
      invariant |listOLists| == k
      invariant forall i :: 0 <= i < k ==> listOLists[i] == EntryOf(groups[i], strategy)
    {
      var info := EntryOf(groups[k], strategy);
      listOLists := listOLists + [info];
    }
    assert listOLists == Shape(groups, strategy);
    return Ok(listOLists);
  }

  // ---------------------------------------------------------------------------
  // Mention normalisation
  // ---------------------------------------------------------------------------

  /** The ASCII characters of the POSIX class \p{Punct}. */
  predicate IsAsciiPunct(c: char)
  {
    c in "!\"#$%&'()*+,-./:;<=>?@[\\]^_`{|}~"
  }

  /**
    The regex class [\pP\p{Punct}]. Below 128 it is exactly \p{Punct}, which
    contains every ASCII character of Unicode's punctuation category; above,
    only Unicode's punctuation category matches, given here as `unicodePunct`.
  */
  predicate IsPunct(c: char, unicodePunct: char -> bool)
  {
    if c as int < 128 then IsAsciiPunct(c) else unicodePunct(c)
  }

  /**
    Below 128 the class is the POSIX punctuation class: the visible ASCII
    characters that are neither letters nor digits.
  */
  lemma AsciiPunctIsGraphicNotAlnum(c: char)
    requires c as int < 128
    ensures IsPunct(c, c => false) <==> '!' <= c <= '~' && !('0' <= c <= '9') && !('a' <= c <= 'z') && !('A' <= c <= 'Z')
  {
  }

  /** The mention with its punctuation deleted; spaces stay. */
  function Filtered(mention: string, unicodePunct: char -> bool): (r: string)
    ensures |r| <= |mention|
    ensures forall c :: c in r <==> c in mention && !IsPunct(c, unicodePunct)
  {
    Keep(mention, c => !IsPunct(c, unicodePunct))
  }

  /** The filtered mention with its spaces deleted too. */
  function FilteredNoSpace(mention: string, unicodePunct: char -> bool): (r: string)
    ensures |r| <= |mention|
    ensures forall c :: c in r <==> c in mention && !IsPunct(c, unicodePunct) && c != ' '
  {
    Keep(Filtered(mention, unicodePunct), c => c != ' ')
  }

  /** Normalising a mention twice changes nothing. */
  lemma FilteredIdempotent(mention: string, unicodePunct: char -> bool)
    ensures Filtered(Filtered(mention, unicodePunct), unicodePunct) == Filtered(mention, unicodePunct)
    ensures FilteredNoSpace(FilteredNoSpace(mention, unicodePunct), unicodePunct)
         == FilteredNoSpace(mention, unicodePunct)
  {
    var notPunct := c => !IsPunct(c, unicodePunct);
    var notSpace := c => c != ' ';
    var g := FilteredNoSpace(mention, unicodePunct);
    KeepIdempotent(mention, notPunct);
    assert Keep(g, notPunct) == g by {
      KeepAll(g, notPunct);
    }
    assert Keep(g, notSpace) == g by {
      KeepAll(g, notSpace);
    }
  }

  /** Deleting the punctuation and then the spaces is one deletion of both. */
  lemma FilteredNoSpaceOnePass(mention: string, unicodePunct: char -> bool)
    ensures FilteredNoSpace(mention, unicodePunct)
         == Keep(mention, c => !IsPunct(c, unicodePunct) && c != ' ')
  {
    KeepKeep(mention, c => !IsPunct(c, unicodePunct), c => c != ' ',
             c => !IsPunct(c, unicodePunct) && c != ' ');
  }

  // ---------------------------------------------------------------------------
  // The cascade
  // ---------------------------------------------------------------------------

  /** One step of the cascade: the strategy name, the field it queries, the query string, the group cap. */
  datatype Strategy = Strategy(name: string, field: Field, query: string, cap: nat)

  /** The six strategies, in the order they are tried. */
  function Plan(mention: string, unicodePunct: char -> bool): seq<Strategy>
  {
    var filtered := Filtered(mention, unicodePunct);
    var noSpace := FilteredNoSpace(mention, unicodePunct);
    [ Strategy("Exact_Match", NameField, noSpace, 3000),
      Strategy("Fuzzy_Match", NameField, noSpace + "~", 5),
      Strategy("Ngram_Match", NgramsField, filtered, 60),
      Strategy("Token_Match", TokenField, filtered, 1200),
      Strategy("Abbreviation_Match", AbbreviationField, noSpace, 5000),
      Strategy("Countrycode_Match", CountrycodeField, noSpace, 5000) ]
  }

  /**
    No query string holds punctuation except the fuzzy marker, which ends the
    fuzzy query and nothing else; only the n-gram and token queries keep spaces.
  */
  lemma PlanQueries(mention: string, unicodePunct: char -> bool)
    ensures var plan := Plan(mention, unicodePunct);
      && |plan| == 6
      && (forall k, c :: 0 <= k < 6 && k != 1 && c in plan[k].query ==> !IsPunct(c, unicodePunct))
      && (forall k, c :: 0 <= k < 6 && k != 2 && k != 3 && c in plan[k].query ==> c != ' ')
      && plan[1].query[|plan[1].query| - 1] == '~'
      && (forall c :: c in plan[1].query[..|plan[1].query| - 1] ==> !IsPunct(c, unicodePunct))
      && plan[1].query[..|plan[1].query| - 1] == plan[0].query
  {
    var plan := Plan(mention, unicodePunct);
    var q := plan[1].query;
    assert q[..|q| - 1] == plan[0].query;
  }

  /** The outcome of one strategy: its grouped search, shaped, or the error it throws. */
  function Run(index: Index, s: Strategy): (r: Result<seq<Entry>, SearchError>)
    ensures r.Ok? ==> forall e :: e in r.value ==> e.strategy == s.name
  {
    match index(s.field, s.query, s.cap)
    case Err(e) => Err(e)
    case Ok(top) => Ok(Entries(top, s.name))
  }

  /** Tries the strategies in order; an error or a non-empty outcome ends the cascade. */
  function Cascade(index: Index, plan: seq<Strategy>): Result<seq<Entry>, SearchError>
  {
    if |plan| == 0 then Ok([])
    else if Run(index, plan[0]) == Ok([]) then Cascade(index, plan[1..])
    else Run(index, plan[0])
  }

  /** The strategies the cascade actually runs, in order. */
  function Attempted(index: Index, plan: seq<Strategy>): seq<Strategy>
  {
    if |plan| == 0 then []
    else if Run(index, plan[0]) == Ok([]) then [plan[0]] + Attempted(index, plan[1..])
    else [plan[0]]
  }

  /**
    The short circuit: the cascade runs a non-empty prefix of the plan, every
    strategy it runs but the last came back empty, it stops early only on an
    error or a non-empty outcome, and its result is that of the last
    strategy it ran.
  */
  lemma {:induction false} CascadeShortCircuit(index: Index, plan: seq<Strategy>)
    requires |plan| > 0
    ensures var tried := Attempted(index, plan);
      && 0 < |tried| <= |plan| && tried == plan[..|tried|]
      && (forall j :: 0 <= j < |tried| - 1 ==> Run(index, tried[j]) == Ok([]))
      && (|tried| < |plan| ==> Run(index, tried[|tried| - 1]) != Ok([]))
      && Cascade(index, plan) == Run(index, tried[|tried| - 1])
  {
    if Run(index, plan[0]) == Ok([]) && |plan| > 1 {
      CascadeShortCircuit(index, plan[1..]);
      var rest := Attempted(index, plan[1..]);
      assert Attempted(index, plan) == [plan[0]] + rest;
      assert plan[..|rest| + 1] == [plan[0]] + plan[1..][..|rest|];
    }
  }

  /** Strategy k decides the result when every earlier one came back empty and it did not. */
  lemma {:induction false} CascadeFirstNonEmpty(index: Index, plan: seq<Strategy>, k: nat)
    requires k < |plan|
    requires forall j :: 0 <= j < k ==> Run(index, plan[j]) == Ok([])
    requires Run(index, plan[k]) != Ok([])
    ensures Cascade(index, plan) == Run(index, plan[k])
    ensures Attempted(index, plan) == plan[..k + 1]
  {
    if k > 0 {
      CascadeFirstNonEmpty(index, plan[1..], k - 1);
      assert plan[..k + 1] == [plan[0]] + plan[1..][..k];
    }
  }

  /** When every strategy comes back empty, all of them run and the result is empty, not an error. */
  lemma {:induction false} CascadeExhausted(index: Index, plan: seq<Strategy>)
    requires forall j :: 0 <= j < |plan| ==> Run(index, plan[j]) == Ok([])
    ensures Cascade(index, plan) == Ok([])
    ensures Attempted(index, plan) == plan
  {
    if |plan| > 0 {
      CascadeExhausted(index, plan[1..]);
      assert [plan[0]] + plan[1..] == plan;
    }
  }

  /** Every entry of the cascade's result carries the name of the last strategy that ran. */
  lemma CascadeEntriesTagged(index: Index, plan: seq<Strategy>)
    requires |plan| > 0
    ensures var tried := Attempted(index, plan);
      Cascade(index, plan).Ok? ==>
        forall e :: e in Cascade(index, plan).value ==> e.strategy == tried[|tried| - 1].name
  {
    CascadeShortCircuit(index, plan);
  }

  /**
    After the first `k` steps of the cascade: the strategies that ran are a
    prefix of the plan, all but the last came back empty, the current result
    is the last one's, and the cascade stopped early only on a non-empty or
    failed outcome.
  */
  ghost predicate ProgressAfter(index: Index, plan: seq<Strategy>, k: nat,
                                attempted: seq<Strategy>, results: Result<seq<Entry>, SearchError>)
  {
    && 1 <= |attempted| <= k <= |plan|
    && attempted == plan[..|attempted|]
    && (forall j :: 0 <= j < |attempted| - 1 ==> Run(index, plan[j]) == Ok([]))
    && results == Run(index, plan[|attempted| - 1])
    && (|attempted| < k ==> results != Ok([]))
  }

  /** One more step of the cascade keeps its progress: the next strategy runs only after an empty outcome. */
  lemma ProgressStep(index: Index, plan: seq<Strategy>, k: nat,
                     attempted: seq<Strategy>, results: Result<seq<Entry>, SearchError>)
    requires k < |plan| && ProgressAfter(index, plan, k, attempted, results)
    ensures results == Ok([]) ==>
              ProgressAfter(index, plan, k + 1, attempted + [plan[k]], Run(index, plan[k]))
    ensures results != Ok([]) ==> ProgressAfter(index, plan, k + 1, attempted, results)
  {
    if results == Ok([]) {
      assert |attempted| == k;
      assert plan[..k + 1] == plan[..k] + [plan[k]];
    }
  }

  /** Once every step has been considered, the progress made is the cascade's. */
  lemma ProgressDone(index: Index, plan: seq<Strategy>,
                     attempted: seq<Strategy>, results: Result<seq<Entry>, SearchError>)
    requires ProgressAfter(index, plan, |plan|, attempted, results)
    ensures results == Cascade(index, plan) && attempted == Attempted(index, plan)
  {
    var k := |attempted| - 1;
    assert forall j :: 0 <= j < k ==> Run(index, plan[j]) == Ok([]);
    assert results == Run(index, plan[k]);
    if results == Ok([]) {
      assert |attempted| == |plan|;
      assert attempted == plan by {
        assert plan[..|plan|] == plan;
      }
      assert forall j :: 0 <= j < |plan| ==> Run(index, plan[j]) == Ok([]) by {
        forall j | 0 <= j < |plan| ensures Run(index, plan[j]) == Ok([]) {
          if j < k {
          } else {
            assert j == k;
          }
        }
      }
      CascadeExhausted(index, plan);
    } else {
      CascadeFirstNonEmpty(index, plan, k);
    }
  }

  /**
    Resolves one mention: the six strategies in order, each run only when all
    before it came back empty; `attempted` records the strategies that ran.
  */
  method SearchByMention(mention: string, index: Index, unicodePunct: char -> bool)
    returns (results: Result<seq<Entry>, SearchError>, ghost attempted: seq<Strategy>)
    ensures results == Cascade(index, Plan(mention, unicodePunct))
    ensures attempted == Attempted(index, Plan(mention, unicodePunct))
  {
    var filterSpecialMention := Filtered(mention, unicodePunct);
    var filterSpecialSpaceMention := Keep(filterSpecialMention, c => c != ' ');
    assert filterSpecialSpaceMention == FilteredNoSpace(mention, unicodePunct);
    ghost var plan := Plan(mention, unicodePunct);
    assert plan == [
      Strategy("Exact_Match", NameField, filterSpecialSpaceMention, 3000),
      Strategy("Fuzzy_Match", NameField, filterSpecialSpaceMention + "~", 5),
      Strategy("Ngram_Match", NgramsField, filterSpecialMention, 60),
      Strategy("Token_Match", TokenField, filterSpecialMention, 1200),
      Strategy("Abbreviation_Match", AbbreviationField, filterSpecialSpaceMention, 5000),
      Strategy("Countrycode_Match", CountrycodeField, filterSpecialSpaceMention, 5000)];

    results := ScoredEntries(index, NameField, filterSpecialSpaceMention, 3000, "Exact_Match");
    attempted := [plan[0]];
    assert ProgressAfter(index, plan, 1, attempted, results);
    ProgressStep(index, plan, 1, attempted, results);
    if results == Ok([]) {
      results := ScoredEntries(index, NameField, filterSpecialSpaceMention + "~", 5, "Fuzzy_Match");
      attempted := attempted + [plan[1]];
    }
    ProgressStep(index, plan, 2, attempted, results);
    if results == Ok([]) {
      results := ScoredEntries(index, NgramsField, filterSpecialMention, 60, "Ngram_Match");
      attempted := attempted + [plan[2]];
    }
    ProgressStep(index, plan, 3, attempted, results);
    if results == Ok([]) {
      results := ScoredEntries(index, TokenField, filterSpecialMention, 1200, "Token_Match");
      attempted := attempted + [plan[3]];
    }
    ProgressStep(index, plan, 4, attempted, results);
    if results == Ok([]) {
      results := ScoredEntries(index, AbbreviationField, filterSpecialSpaceMention, 5000, "Abbreviation_Match");
      attempted := attempted + [plan[4]];
    }
    ProgressStep(index, plan, 5, attempted, results);
    if results == Ok([]) {
      results := ScoredEntries(index, CountrycodeField, filterSpecialSpaceMention, 5000, "Countrycode_Match");
      attempted := attempted + [plan[5]];
    }
    ProgressDone(index, plan, attempted, results);
  }
}
