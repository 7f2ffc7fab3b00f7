/** Grouping of command-line tokens under the options they follow, and its inverse: writing
    option tables out as tokens. */
module OptionGrouping {

  /** A C string has no zero character inside; one is read at its end. */
  type CString = s: string | '\0' !in s

  datatype Flags = CmdLineNotExtracted | CmdLineExtracted | Envir
  datatype OptionData = OptionData(flags: Flags, args: seq<CString>)

  datatype Key = Short(c: char) | Long(name: CString)
  datatype Tables = Tables(short: map<char, OptionData>, long: map<CString, OptionData>)

  const EMPTY_OPTION := '\0'
  const EMPTY := Tables(map[], map[])
  const NEW_DATA := OptionData(CmdLineNotExtracted, [])

  function CharAt(s: CString, j: nat): char {
    if j < |s| then s[j] else '\0'
  }

  predicate IsAlpha(c: char) {
    'a' <= c <= 'z' || 'A' <= c <= 'Z'
  }

  /** A token that names options; any other is a value. */
  predicate IsOption(token: CString) {
    CharAt(token, 0) == '-' && (IsAlpha(CharAt(token, 1)) || CharAt(token, 1) == '-')
  }

  const SMALL_LETTERS := "abcdefghijklmnopqrstuvwxyz"
  const CAPITAL_LETTERS := "ABCDEFGHIJKLMNOPQRSTUVWXYZ"

  lemma Letters(c: char)
    ensures IsAlpha(c) <==> c in SMALL_LETTERS || c in CAPITAL_LETTERS
  {
    SmallLetters(c);
    CapitalLetters(c);
  }

  lemma SmallLetters(c: char)
    ensures 'a' <= c <= 'z' <==> c in SMALL_LETTERS
  {
    if 'a' <= c <= 'z' {
      assert SMALL_LETTERS[(c - 'a') as int] == c;
    }
  }

  lemma CapitalLetters(c: char)
    ensures 'A' <= c <= 'Z' <==> c in CAPITAL_LETTERS
  {
    if 'A' <= c <= 'Z' {
      assert CAPITAL_LETTERS[(c - 'A') as int] == c;
    }
  }

  /** Exactly a dash followed by one of the 52 letters or a second dash names options. */
  lemma OptionTokens(token: CString)
    ensures IsOption(token) <==>
            && |token| >= 2 && token[0] == '-'
            && (token[1] in SMALL_LETTERS || token[1] in CAPITAL_LETTERS || token[1] == '-')
  {
    Letters(CharAt(token, 1));
  }

  predicate IsLong(token: CString) {
    CharAt(token, 1) == '-' && CharAt(token, 2) != '\0'
  }

  // ----- tables -----

  predicate Has(t: Tables, k: Key) {
    match k
    case Short(c) => c in t.short
    case Long(name) => name in t.long
  }

  /** Naming an option that is not there creates it without arguments. */
  function Data(t: Tables, k: Key): OptionData {
    if !Has(t, k) then NEW_DATA
    else
      match k
      case Short(c) => t.short[c]
      case Long(name) => t.long[name]
  }

  function With(t: Tables, k: Key, data: OptionData): Tables {
    match k
    case Short(c) => t.(short := t.short[c := data])
    case Long(name) => t.(long := t.long[name := data])
  }

  function Touch(t: Tables, k: Key): Tables {
    With(t, k, Data(t, k))
  }

  function Append(t: Tables, k: Key, values: seq<CString>): Tables {
    var data := Data(t, k);
    With(t, k, data.(args := data.args + values))
  }

  function TouchAll(t: Tables, cluster: string): Tables {
    if cluster == "" then t
    else Touch(TouchAll(t, cluster[..|cluster| - 1]), Short(cluster[|cluster| - 1]))
  }

  // ----- grouping -----

  datatype Cursor = NoOption | At(key: Key)
  datatype Grouping = Grouping(tables: Tables, cursor: Cursor)

  const START := Grouping(EMPTY, NoOption)

  /** The option whose arguments come next. */
  function Current(cursor: Cursor): Key {
    if cursor.At? then cursor.key else Short(EMPTY_OPTION)
  }

  function LastNamed(token: CString): Key
    requires IsOption(token)
  {
    if IsLong(token) then Long(token[2..]) else Short(token[|token| - 1])
  }

  function Feed(g: Grouping, token: CString): Grouping {
    if !IsOption(token) then
      Grouping(Append(g.tables, Current(g.cursor), [token]), At(Current(g.cursor)))
    else
      Grouping(if IsLong(token) then Touch(g.tables, LastNamed(token)) else TouchAll(g.tables, token[1..]),
               At(LastNamed(token)))
  }

  function FeedAll(g: Grouping, tokens: seq<CString>): Grouping {
    if tokens == [] then g
    else Feed(FeedAll(g, tokens[..|tokens| - 1]), tokens[|tokens| - 1])
  }

  function Parse(tokens: seq<CString>): Tables {
    FeedAll(START, tokens).tables
  }

  // ----- what grouping means -----

  /** The owner of the values that follow a list of tokens: the last option named in the last
      token that names any, or the empty option. */
  function Owner(tokens: seq<CString>): Key {
    if tokens == [] then Short(EMPTY_OPTION)
    else if IsOption(tokens[|tokens| - 1]) then LastNamed(tokens[|tokens| - 1])
    else Owner(tokens[..|tokens| - 1])
  }

  /** The values that follow k, in order. */
  function ValuesOf(tokens: seq<CString>, k: Key): seq<CString> {
    if tokens == [] then []
    else
      var before, token := tokens[..|tokens| - 1], tokens[|tokens| - 1];
      ValuesOf(before, k) + if !IsOption(token) && Owner(before) == k then [token] else []
  }

  predicate Names(token: CString, k: Key) {
    IsOption(token) && if IsLong(token) then k == Long(token[2..]) else k.Short? && k.c in token[1..]
  }

  predicate NamedIn(tokens: seq<CString>, k: Key) {
    exists i :: 0 <= i < |tokens| && Names(tokens[i], k)
  }

  lemma NamedInConcat(tokens: seq<CString>, token: CString, k: Key)
    ensures NamedIn(tokens + [token], k) <==> NamedIn(tokens, k) || Names(token, k)
  {
    var all := tokens + [token];
    if i :| 0 <= i < |tokens| && Names(tokens[i], k) {
      assert Names(all[i], k);
    }
    if Names(token, k) {
      assert Names(all[|tokens|], k);
    }
  }

  lemma {:induction false} TouchAllData(t: Tables, cluster: string, k: Key)
    ensures Data(TouchAll(t, cluster), k) == Data(t, k)
    ensures Has(TouchAll(t, cluster), k) <==> Has(t, k) || (k.Short? && k.c in cluster)
  {
    if cluster != "" {
      var front, last := cluster[..|cluster| - 1], cluster[|cluster| - 1];
      TouchAllData(t, front, k);
      assert cluster == front + [last];
    }
  }

  /** The grouping of the tokens says what k has and which option is current. */
  ghost predicate Means(g: Grouping, tokens: seq<CString>, k: Key) {
    && Current(g.cursor) == Owner(tokens)
    && Data(g.tables, k) == OptionData(CmdLineNotExtracted, ValuesOf(tokens, k))
    && (Has(g.tables, k) <==> NamedIn(tokens, k) || ValuesOf(tokens, k) != [])
  }

  lemma FeedMeans(g: Grouping, before: seq<CString>, token: CString, k: Key)
    requires Means(g, before, k)
    ensures Means(Feed(g, token), before + [token], k)
  {
    assert (before + [token])[..|before|] == before;
    NamedInConcat(before, token, k);
    if IsOption(token) && !IsLong(token) {
      TouchAllData(g.tables, token[1..], k);
    }
  }

  /** Each value is an argument of exactly one option, the last one named before it, and an
      option's arguments are its values in order. An option is in the tables exactly when it
      was named or is the empty option with values. */
  lemma {:induction false} GroupsByLastNamed(tokens: seq<CString>, k: Key)
    ensures var g := FeedAll(START, tokens);
      && Current(g.cursor) == Owner(tokens)
      && Data(g.tables, k) == OptionData(CmdLineNotExtracted, ValuesOf(tokens, k))
      && (Has(g.tables, k) <==> NamedIn(tokens, k) || ValuesOf(tokens, k) != [])
  {
    if tokens != [] {
      var before, token := tokens[..|tokens| - 1], tokens[|tokens| - 1];
      GroupsByLastNamed(before, k);
      FeedMeans(FeedAll(START, before), before, token, k);
      assert tokens == before + [token];
    }
  }

  /** Right after parsing, options remain to be extracted exactly when there were tokens. */
  lemma {:induction false} SomethingRemains(tokens: seq<CString>)
    ensures tokens != [] <==>
            exists k :: Has(Parse(tokens), k) && Data(Parse(tokens), k).flags == CmdLineNotExtracted
  {
    if tokens != [] {
      var token := tokens[|tokens| - 1];
      var k := if IsOption(token) then LastNamed(token) else Owner(tokens[..|tokens| - 1]);
      GroupsByLastNamed(tokens, k);
      if IsOption(token) {
        assert Names(token, k);
      }
      assert Has(Parse(tokens), k);
    }
  }
}
