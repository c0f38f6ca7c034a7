/** Subscription queries: printing them as text and parsing them again. */
module Subscriber {
  import opened Results
  import opened Utils

  const QUERY_MAIN_SEPARATOR := '|'
  const QUERY_PATH_SEPARATOR := '/'
  const SELECTORS_SEPARATOR := ','
  const SELECTOR_SEPARATOR := '='

  datatype QueryError = TooManySeparators | InvalidSelector

  datatype QuerySelector = QuerySelector(selectorKey: string, selectorValue: string)

  datatype SubscriptionQuery = SubscriptionQuery(channelPath: seq<string>, selectors: seq<QuerySelector>)

  // ---- Printing ----

  function SelectorText(s: QuerySelector): string {
    s.selectorKey + [SELECTOR_SEPARATOR] + s.selectorValue
  }

  function SelectorTexts(selectors: seq<QuerySelector>): (r: seq<string>)
    ensures |r| == |selectors|
    ensures forall i | 0 <= i < |r| :: r[i] == SelectorText(selectors[i])
  {
    seq(|selectors|, i requires 0 <= i < |selectors| => SelectorText(selectors[i]))
  }

  /** The path joined by slashes, and after a bar, if there are any, the selectors joined by commas. */
  function Text(q: SubscriptionQuery): string
    requires q.channelPath != []
  {
    Joined(q.channelPath, QUERY_PATH_SEPARATOR)
    + if q.selectors == [] then ""
      else [QUERY_MAIN_SEPARATOR] + Joined(SelectorTexts(q.selectors), SELECTORS_SEPARATOR)
  }

  /** The source ends every part with its separator and takes the last one off again; without selectors that
      is the bar. On an empty path it would take a character off an empty string. */
  method ToSubscriptionQueryString(q: SubscriptionQuery) returns (result: string)
    requires q.channelPath != []
    ensures result == Text(q)
  {
    result := "";
    for i := 0 to |q.channelPath|
      invariant result == Ended(q.channelPath[..i], QUERY_PATH_SEPARATOR)
    {
      EndedMore(q.channelPath[..i], q.channelPath[i], QUERY_PATH_SEPARATOR);
      assert q.channelPath[..i + 1] == q.channelPath[..i] + [q.channelPath[i]];
      result := result + q.channelPath[i] + [QUERY_PATH_SEPARATOR];
    }
    assert q.channelPath[..|q.channelPath|] == q.channelPath;
    EndedIsJoined(q.channelPath, QUERY_PATH_SEPARATOR);
    result := result[..|result| - 1] + [QUERY_MAIN_SEPARATOR];
    var selectors := PrintSelectors(q.selectors);
    result := result + selectors;
    ghost var texts := SelectorTexts(q.selectors);
    if q.selectors != [] { EndedIsJoined(texts, SELECTORS_SEPARATOR); }
    result := result[..|result| - 1];
  }

  method PrintSelectors(selectors: seq<QuerySelector>) returns (result: string)
    ensures result == Ended(SelectorTexts(selectors), SELECTORS_SEPARATOR)
  {
    result := "";
    ghost var texts := SelectorTexts(selectors);
    for i := 0 to |selectors|
      invariant result == Ended(texts[..i], SELECTORS_SEPARATOR)
    {
      EndedMore(texts[..i], texts[i], SELECTORS_SEPARATOR);
      assert texts[..i + 1] == texts[..i] + [texts[i]];
      result := result + selectors[i].selectorKey + [SELECTOR_SEPARATOR] + selectors[i].selectorValue + [SELECTORS_SEPARATOR];
    }
    assert texts[..|selectors|] == texts;
  }

  // ---- Parsing ----

  function ReadSelector(text: string): Result<QuerySelector, QueryError> {
    var parts := Lines(text, SELECTOR_SEPARATOR);
    if |parts| != 2 then Err(InvalidSelector) else Ok(QuerySelector(parts[0], parts[1]))
  }

  /** All selectors, or the failure of one of them. */
  function ReadSelectors(texts: seq<string>): (r: Result<seq<QuerySelector>, QueryError>) {
    if texts == [] then Ok([])
    else
      match ReadSelectors(texts[..|texts| - 1])
      case Err(e) => Err(e)
      case Ok(front) =>
        match ReadSelector(texts[|texts| - 1])
        case Err(e) => Err(e)
        case Ok(last) => Ok(front + [last])
  }

  function Read(text: string): Result<SubscriptionQuery, QueryError> {
    var main := Lines(text, QUERY_MAIN_SEPARATOR);
    if |main| > 2 then Err(TooManySeparators)
    else
      var path := if |main| > 0 then Lines(main[0], QUERY_PATH_SEPARATOR) else [];
      match ReadSelectors(if |main| > 1 then Lines(main[1], SELECTORS_SEPARATOR) else [])
      case Err(e) => Err(e)
      case Ok(selectors) => Ok(SubscriptionQuery(path, selectors))
  }

  method Parse(text: string) returns (r: Result<SubscriptionQuery, QueryError>)
    ensures r == Read(text)
  {
    var splittedQuery := Split(text, QUERY_MAIN_SEPARATOR);
    if |splittedQuery| > 2 {
      return Err(TooManySeparators);
    }
    var channelPath: seq<string> := [];
    if |splittedQuery| > 0 {
      channelPath := Split(splittedQuery[0], QUERY_PATH_SEPARATOR);
    }
    var selectors: seq<QuerySelector> := [];
    if |splittedQuery| > 1 {
      var texts := Split(splittedQuery[1], SELECTORS_SEPARATOR);
      var read := ParseSelectors(texts);
      if read.Err? {
        return Err(read.error);
      }
      selectors := read.value;
    }
    r := Ok(SubscriptionQuery(channelPath, selectors));
  }

  method ParseSelectors(texts: seq<string>) returns (r: Result<seq<QuerySelector>, QueryError>)
    ensures r == ReadSelectors(texts)
  {
    var selectors: seq<QuerySelector> := [];
    for i := 0 to |texts|
      invariant ReadSelectors(texts[..i]) == Ok(selectors)
    {
      assert texts[..i + 1][..i] == texts[..i];
      var splittedSelector := Split(texts[i], SELECTOR_SEPARATOR);
      if |splittedSelector| != 2 {
        FirstFailure(texts, i + 1);
        return Err(InvalidSelector);
      }
      selectors := selectors + [QuerySelector(splittedSelector[0], splittedSelector[1])];
    }
    assert texts[..|texts|] == texts;
    r := Ok(selectors);
  }

  lemma {:induction false} FirstFailure(texts: seq<string>, n: nat)
    requires n <= |texts| && ReadSelectors(texts[..n]).Err?
    ensures ReadSelectors(texts) == ReadSelectors(texts[..n])
    decreases |texts|
  {
    if n < |texts| {
      assert texts[..|texts| - 1][..n] == texts[..n];
      FirstFailure(texts[..|texts| - 1], n);
    } else {
      assert texts[..n] == texts;
    }
  }

  // ---- Round trip ----

  /** Free of the separators that would cut it. */
  predicate CleanPart(part: string) {
    QUERY_MAIN_SEPARATOR !in part && QUERY_PATH_SEPARATOR !in part
  }

  predicate CleanName(name: string) {
    QUERY_MAIN_SEPARATOR !in name && SELECTORS_SEPARATOR !in name && SELECTOR_SEPARATOR !in name
  }

  predicate CleanSelector(s: QuerySelector) {
    CleanName(s.selectorKey) && CleanName(s.selectorValue) && s.selectorValue != ""
  }

  /** Nothing would be cut, and nothing empty is where reading lines would lose it. */
  predicate Clean(q: SubscriptionQuery)
    requires q.channelPath != []
  {
    && (forall part :: part in q.channelPath ==> CleanPart(part))
    && q.channelPath[|q.channelPath| - 1] != ""
    && forall s :: s in q.selectors ==> CleanSelector(s)
  }

  lemma {:induction false} JoinedFree(parts: seq<string>, delimiter: char, x: char)
    requires parts != [] && x != delimiter && Free(parts, x)
    ensures x !in Joined(parts, delimiter)
  {
    assert parts[0] in parts;
    if |parts| > 1 {
      assert forall part :: part in parts[1..] ==> part in parts;
      JoinedFree(parts[1..], delimiter, x);
    }
  }

  lemma {:induction false} JoinedNotEmpty(parts: seq<string>, delimiter: char)
    requires parts != [] && parts[|parts| - 1] != ""
    ensures Joined(parts, delimiter) != ""
  {
    if |parts| > 1 { JoinedNotEmpty(parts[1..], delimiter); }
  }

  lemma TwoLines(a: string, b: string, delimiter: char)
    requires delimiter !in a && delimiter !in b
    ensures Lines(a + [delimiter] + b, delimiter) == if b == "" then [a] else [a, b]
  {
    assert [a, b][1..] == [b] && [a, b][..1] == [a];
    assert Joined([a, b], delimiter) == a + [delimiter] + b;
    LinesOfJoined([a, b], delimiter);
  }

  /** A selector with clean names is read back unless its value is empty. */
  lemma ReadSelectorText(s: QuerySelector)
    requires CleanName(s.selectorKey) && CleanName(s.selectorValue)
    ensures ReadSelector(SelectorText(s)) == if s.selectorValue == "" then Err(InvalidSelector) else Ok(s)
  {
    TwoLines(s.selectorKey, s.selectorValue, SELECTOR_SEPARATOR);
  }

  lemma {:induction false} ReadAllSelectors(selectors: seq<QuerySelector>)
    requires forall s :: s in selectors ==> CleanSelector(s)
    ensures ReadSelectors(SelectorTexts(selectors)) == Ok(selectors)
  {
    if selectors != [] {
      var n := |selectors| - 1;
      assert SelectorTexts(selectors)[..n] == SelectorTexts(selectors[..n]);
      assert selectors[n] in selectors;
      ReadAllSelectors(selectors[..n]);
      ReadSelectorText(selectors[n]);
      assert selectors == selectors[..n] + [selectors[n]];
    }
  }

  lemma TextsAreFree(selectors: seq<QuerySelector>)
    requires forall s :: s in selectors ==> CleanName(s.selectorKey) && CleanName(s.selectorValue)
    ensures Free(SelectorTexts(selectors), QUERY_MAIN_SEPARATOR) && Free(SelectorTexts(selectors), SELECTORS_SEPARATOR)
  {
    forall text | text in SelectorTexts(selectors) ensures QUERY_MAIN_SEPARATOR !in text && SELECTORS_SEPARATOR !in text {
      var i :| 0 <= i < |selectors| && SelectorTexts(selectors)[i] == text;
      assert selectors[i] in selectors;
    }
  }

  /** How a text is cut when no part of it has a separator in it that would cut it. */
  lemma CutText(q: SubscriptionQuery)
    requires q.channelPath != [] && forall part :: part in q.channelPath ==> CleanPart(part)
    requires forall s :: s in q.selectors ==> CleanName(s.selectorKey) && CleanName(s.selectorValue)
    ensures var path, main := Joined(q.channelPath, QUERY_PATH_SEPARATOR), Lines(Text(q), QUERY_MAIN_SEPARATOR);
            if q.selectors == [] then main == (if path == "" then [] else [path])
            else main == [path, Joined(SelectorTexts(q.selectors), SELECTORS_SEPARATOR)]
                 && Lines(main[1], SELECTORS_SEPARATOR) == SelectorTexts(q.selectors)
  {
    var path, texts := Joined(q.channelPath, QUERY_PATH_SEPARATOR), SelectorTexts(q.selectors);
    JoinedFree(q.channelPath, QUERY_PATH_SEPARATOR, QUERY_MAIN_SEPARATOR);
    if q.selectors == [] {
      assert Text(q) == path;
      LinesOfJoined([path], QUERY_MAIN_SEPARATOR);
    } else {
      TextsAreFree(q.selectors);
      JoinedFree(texts, SELECTORS_SEPARATOR, QUERY_MAIN_SEPARATOR);
      assert texts[|texts| - 1] != "";
      JoinedNotEmpty(texts, SELECTORS_SEPARATOR);
      TwoLines(path, Joined(texts, SELECTORS_SEPARATOR), QUERY_MAIN_SEPARATOR);
      assert Text(q) == path + [QUERY_MAIN_SEPARATOR] + Joined(texts, SELECTORS_SEPARATOR);
      LinesOfJoined(texts, SELECTORS_SEPARATOR);
    }
  }

  lemma CleanIsReadBack(q: SubscriptionQuery)
    requires q.channelPath != [] && Clean(q)
    ensures Read(Text(q)) == Ok(q)
  {
    CutText(q);
    JoinedNotEmpty(q.channelPath, QUERY_PATH_SEPARATOR);
    LinesOfJoined(q.channelPath, QUERY_PATH_SEPARATOR);
    ReadAllSelectors(q.selectors);
  }

  /** Whatever is read has clean parts. */
  lemma PathIsClean(text: string, q: SubscriptionQuery)
    requires Read(text) == Ok(q)
    ensures forall part :: part in q.channelPath ==> CleanPart(part)
  {
    var main := Lines(text, QUERY_MAIN_SEPARATOR);
    LinesAreClean(text, QUERY_MAIN_SEPARATOR);
    if |main| > 0 {
      LinesAreClean(main[0], QUERY_PATH_SEPARATOR);
      assert main[0] in main;
    }
  }

  lemma {:induction false} NamesAreClean(texts: seq<string>, selectors: seq<QuerySelector>)
    requires ReadSelectors(texts) == Ok(selectors)
    requires Free(texts, QUERY_MAIN_SEPARATOR) && Free(texts, SELECTORS_SEPARATOR)
    ensures forall s :: s in selectors ==> CleanName(s.selectorKey) && CleanName(s.selectorValue)
    ensures |texts| == |selectors| && forall i :: 0 <= i < |texts| ==> ReadSelector(texts[i]) == Ok(selectors[i])
  {
    if texts != [] {
      var n := |texts| - 1;
      NamesAreClean(texts[..n], selectors[..|selectors| - 1]);
      LinesAreClean(texts[n], SELECTOR_SEPARATOR);
      assert texts[n] in texts;
      var parts := Lines(texts[n], SELECTOR_SEPARATOR);
      assert parts[0] in parts && parts[1] in parts;
      assert selectors == selectors[..n] + [selectors[n]];
    }
  }

  lemma SelectorsAreClean(text: string, q: SubscriptionQuery)
    requires Read(text) == Ok(q)
    ensures forall s :: s in q.selectors ==> CleanName(s.selectorKey) && CleanName(s.selectorValue)
  {
    var main := Lines(text, QUERY_MAIN_SEPARATOR);
    LinesAreClean(text, QUERY_MAIN_SEPARATOR);
    if |main| > 1 {
      LinesAreClean(main[1], SELECTORS_SEPARATOR);
      assert main[1] in main;
      NamesAreClean(Lines(main[1], SELECTORS_SEPARATOR), q.selectors);
    }
  }

  lemma ValuesNotEmpty(q: SubscriptionQuery)
    requires ReadSelectors(SelectorTexts(q.selectors)) == Ok(q.selectors)
    requires forall s :: s in q.selectors ==> CleanName(s.selectorKey) && CleanName(s.selectorValue)
    ensures forall s :: s in q.selectors ==> s.selectorValue != ""
  {
    TextsAreFree(q.selectors);
    NamesAreClean(SelectorTexts(q.selectors), q.selectors);
    forall s | s in q.selectors ensures s.selectorValue != "" {
      var i :| 0 <= i < |q.selectors| && q.selectors[i] == s;
      ReadSelectorText(s);
      assert ReadSelector(SelectorTexts(q.selectors)[i]) == Ok(s);
    }
  }

  /** A query is read back from its text exactly when it is clean. */
  lemma ReadBackIffClean(q: SubscriptionQuery)
    requires q.channelPath != []
    ensures Read(Text(q)) == Ok(q) <==> Clean(q)
  {
    if Clean(q) {
      CleanIsReadBack(q);
    }
    if Read(Text(q)) == Ok(q) {
      PathIsClean(Text(q), q);
      SelectorsAreClean(Text(q), q);
      CutText(q);
      LinesOfJoined(q.channelPath, QUERY_PATH_SEPARATOR);
      ValuesNotEmpty(q);
    }
  }

  /** Queries without any separator that do not come back: an empty last part of the path is lost, */
  lemma LostPart()
    ensures Read(Text(SubscriptionQuery(["store", ""], []))) == Ok(SubscriptionQuery(["store"], []))
  {
    var path := ["store", ""];
    assert path[1..] == [""];
    var text := Text(SubscriptionQuery(path, []));
    assert text == "store/";
    LinesOfJoined([text], QUERY_MAIN_SEPARATOR);
    TwoLines("store", "", QUERY_PATH_SEPARATOR);
  }

  /** and an empty selector value is refused. */
  lemma LostValue(key: string)
    requires CleanName(key)
    ensures Read(Text(SubscriptionQuery(["store"], [QuerySelector(key, "")]))) == Err(InvalidSelector)
  {
    var s := QuerySelector(key, "");
    CutText(SubscriptionQuery(["store"], [s]));
    ReadSelectorText(s);
    var texts := SelectorTexts([s]);
    assert texts == [SelectorText(s)] && texts[..0] == [];
    assert ReadSelectors(texts) == Err(InvalidSelector);
  }

  /** Print and parse. */
  method PrintAndParse(q: SubscriptionQuery) returns (r: Result<SubscriptionQuery, QueryError>)
    requires q.channelPath != []
    ensures r == Ok(q) <==> Clean(q)
  {
    var text := ToSubscriptionQueryString(q);
    r := Parse(text);
    ReadBackIffClean(q);
  }
}
