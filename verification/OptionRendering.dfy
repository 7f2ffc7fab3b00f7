/** Writing option tables out as tokens: which tables grouping can produce, and that writing
    them out and grouping again gives them back. */
module OptionRendering {
  import opened OptionGrouping

  const EMPTY_KEY := Short(EMPTY_OPTION)

  /** A short option that no token can start with. */
  predicate IsOdd(k: Key) {
    k.Short? && k.c != EMPTY_OPTION && !IsAlpha(k.c) && k.c != '-'
  }

  predicate IsLetter(k: Key) {
    k.Short? && IsAlpha(k.c)
  }

  predicate Plain(values: seq<CString>) {
    forall i :: 0 <= i < |values| ==> !IsOption(values[i])
  }

  /** The tables that some command line leads to. */
  ghost predicate Renderable(t: Tables) {
    && (forall k :: Has(t, k) ==> Data(t, k).flags == CmdLineNotExtracted && Plain(Data(t, k).args))
    && (Has(t, EMPTY_KEY) ==> Data(t, EMPTY_KEY).args != [])
    && !Has(t, Long(""))
    && ((exists k :: IsOdd(k) && Has(t, k)) ==> exists k :: IsLetter(k) && Has(t, k))
  }

  /** The keys of t other than the empty option, each once; a letter comes first if it is
      needed to introduce an odd one. */
  ghost predicate Listing(t: Tables, keys: seq<Key>, lead: char) {
    && (forall k :: k in keys <==> k != EMPTY_KEY && Has(t, k))
    && (forall i, j :: 0 <= i < j < |keys| ==> keys[i] != keys[j])
    && IsAlpha(lead)
    && ((exists k :: IsOdd(k) && k in keys) ==> keys[0] == Short(lead))
  }

  function KeyToken(k: Key, lead: char): CString
    requires IsAlpha(lead) && k != EMPTY_KEY
  {
    match k
    case Short(c) => if IsOdd(k) then ['-', lead, c] else ['-', c]
    case Long(name) => "--" + name
  }

  /** Values of the empty option first, then each key followed by its arguments. */
  function Render(t: Tables, keys: seq<Key>, lead: char): seq<CString>
    requires IsAlpha(lead) && EMPTY_KEY !in keys
  {
    if keys == [] then Data(t, EMPTY_KEY).args
    else
      var k := keys[|keys| - 1];
      Render(t, keys[..|keys| - 1], lead) + ([KeyToken(k, lead)] + Data(t, k).args)
  }

  // ----- reading tokens in pieces -----

  lemma {:induction false} ValuesFollow(tokens: seq<CString>, values: seq<CString>, k: Key)
    requires Plain(values)
    ensures ValuesOf(tokens + values, k) == ValuesOf(tokens, k) + if Owner(tokens) == k then values else []
    ensures Owner(tokens + values) == Owner(tokens)
    ensures NamedIn(tokens + values, k) <==> NamedIn(tokens, k)
  {
    if values == [] {
      assert tokens + values == tokens;
    } else {
      var front, last := values[..|values| - 1], values[|values| - 1];
      ValuesFollow(tokens, front, k);
      assert tokens + values == (tokens + front) + [last];
      NamedInConcat(tokens + front, last, k);
    }
  }

  lemma OptionFollows(tokens: seq<CString>, token: CString, k: Key)
    requires IsOption(token)
    ensures ValuesOf(tokens + [token], k) == ValuesOf(tokens, k)
    ensures Owner(tokens + [token]) == LastNamed(token)
  {
    assert (tokens + [token])[..|tokens|] == tokens;
  }

  lemma KeyTokenNames(k: Key, lead: char, other: Key)
    requires IsAlpha(lead) && k != EMPTY_KEY && k != Long("")
    ensures var token := KeyToken(k, lead);
      && IsOption(token) && LastNamed(token) == k
      && (Names(token, other) <==> other == k || (IsOdd(k) && other == Short(lead)))
  {
    var token := KeyToken(k, lead);
    if k.Short? {
      assert token[1..] == if IsOdd(k) then [lead, k.c] else [k.c];
    } else {
      assert token[2..] == k.name;
    }
  }

  /** The keys that may be written out: the empty option apart, and an odd one only after
      the letter that introduces it. */
  ghost predicate Writable(t: Tables, keys: seq<Key>, lead: char) {
    && IsAlpha(lead) && EMPTY_KEY !in keys && Long("") !in keys
    && (forall i, j :: 0 <= i < j < |keys| ==> keys[i] != keys[j])
    && Plain(Data(t, EMPTY_KEY).args)
    && (forall k :: k in keys ==> Plain(Data(t, k).args))
    && (forall k :: k in keys && IsOdd(k) ==> keys[0] == Short(lead))
  }

  /** A key and its arguments after any tokens: the key is named and owns the arguments. */
  lemma GroupMeans(before: seq<CString>, key: Key, lead: char, values: seq<CString>, k: Key)
    requires IsAlpha(lead) && key != EMPTY_KEY && key != Long("") && Plain(values)
    ensures var tokens := before + ([KeyToken(key, lead)] + values);
      && ValuesOf(tokens, k) == ValuesOf(before, k) + (if k == key then values else [])
      && (NamedIn(tokens, k) <==> NamedIn(before, k) || k == key || (IsOdd(key) && k == Short(lead)))
  {
    var token := KeyToken(key, lead);
    KeyTokenNames(key, lead, k);
    OptionFollows(before, token, k);
    NamedInConcat(before, token, k);
    ValuesFollow(before + [token], values, k);
    assert before + ([token] + values) == (before + [token]) + values;
  }

  lemma WritablePrefix(t: Tables, keys: seq<Key>, lead: char)
    requires Writable(t, keys, lead) && keys != []
    ensures Writable(t, keys[..|keys| - 1], lead)
    ensures keys[|keys| - 1] !in keys[..|keys| - 1]
    ensures IsOdd(keys[|keys| - 1]) ==> Short(lead) in keys[..|keys| - 1]
  {
    var front, last := keys[..|keys| - 1], keys[|keys| - 1];
    assert forall k :: k in front ==> k in keys;
    assert last in keys;
    if IsOdd(last) {
      assert front[0] == Short(lead);
    }
  }

  lemma InFrontOrLast(keys: seq<Key>, k: Key)
    requires keys != []
    ensures k in keys <==> k in keys[..|keys| - 1] || k == keys[|keys| - 1]
  {
    assert keys == keys[..|keys| - 1] + [keys[|keys| - 1]];
  }

  lemma {:induction false} RenderMeans(t: Tables, keys: seq<Key>, lead: char, k: Key)
    requires Writable(t, keys, lead)
    ensures var tokens := Render(t, keys, lead);
      && ValuesOf(tokens, k) == (if k == EMPTY_KEY || k in keys then Data(t, k).args else [])
      && (NamedIn(tokens, k) <==> k in keys)
  {
    if keys == [] {
      var values := Data(t, EMPTY_KEY).args;
      ValuesFollow([], values, k);
      assert [] + values == values;
    } else {
      var front, last := keys[..|keys| - 1], keys[|keys| - 1];
      InFrontOrLast(keys, k);
      WritablePrefix(t, keys, lead);
      RenderMeans(t, front, lead, k);
      GroupMeans(Render(t, front, lead), last, lead, Data(t, last).args, k);
    }
  }

  /** Writing tables out and grouping the tokens gives the tables back. */
  lemma RoundTrip(t: Tables, keys: seq<Key>, lead: char)
    requires Renderable(t) && Listing(t, keys, lead)
    ensures Parse(Render(t, keys, lead)) == t
  {
    var tokens := Render(t, keys, lead);
    assert Writable(t, keys, lead) by {
      forall k | k in keys && IsOdd(k)
        ensures keys[0] == Short(lead)
      {
      }
    }
    forall k
      ensures Has(Parse(tokens), k) <==> Has(t, k)
      ensures Data(Parse(tokens), k) == Data(t, k)
    {
      RenderMeans(t, keys, lead, k);
      GroupsByLastNamed(tokens, k);
    }
    SameTables(Parse(tokens), t);
  }

  lemma SameTables(a: Tables, b: Tables)
    requires forall k :: Has(a, k) <==> Has(b, k)
    requires forall k :: Data(a, k) == Data(b, k)
    ensures a == b
  {
    forall c
      ensures c in a.short <==> c in b.short
      ensures c in a.short ==> a.short[c] == b.short[c]
    {
      assert Has(a, Short(c)) <==> Has(b, Short(c));
      assert Data(a, Short(c)) == Data(b, Short(c));
    }
    forall name: CString
      ensures name in a.long <==> name in b.long
      ensures name in a.long ==> a.long[name] == b.long[name]
    {
      assert Has(a, Long(name)) <==> Has(b, Long(name));
      assert Data(a, Long(name)) == Data(b, Long(name));
    }
    assert a.short == b.short && a.long == b.long;
  }

  /** Values before any option belong to the option named by the zero character. */
  lemma LeadingValues(values: seq<CString>)
    requires Plain(values)
    ensures Data(Parse(values), Short('\0')).args == values
  {
    ValuesFollow([], values, Short('\0'));
    GroupsByLastNamed(values, Short('\0'));
    assert [] + values == values;
  }

  // ----- which tables can come about -----

  lemma {:induction false} ValuesArePlain(tokens: seq<CString>, k: Key)
    ensures Plain(ValuesOf(tokens, k))
  {
    if tokens != [] {
      ValuesArePlain(tokens[..|tokens| - 1], k);
    }
  }

  lemma OddNeedsLetter(token: CString, k: Key)
    requires Names(token, k) && IsOdd(k)
    ensures Names(token, Short(token[1])) && IsLetter(Short(token[1]))
  {
    assert |token| > 2 ==> token[2] in token;
    assert |token| == 2 ==> token[1..] == [token[1]];
  }

  lemma ParseIsRenderable(tokens: seq<CString>)
    ensures Renderable(Parse(tokens))
  {
    var t := Parse(tokens);
    forall k | Has(t, k)
      ensures Data(t, k).flags == CmdLineNotExtracted && Plain(Data(t, k).args)
    {
      GroupsByLastNamed(tokens, k);
      ValuesArePlain(tokens, k);
    }
    GroupsByLastNamed(tokens, EMPTY_KEY);
    GroupsByLastNamed(tokens, Long(""));
    OwnersAreNamed(tokens, Long(""));
    OwnersAreNamed(tokens, EMPTY_KEY);
    if k :| IsOdd(k) && Has(t, k) {
      GroupsByLastNamed(tokens, k);
      OwnersAreNamed(tokens, k);
      var i :| 0 <= i < |tokens| && Names(tokens[i], k);
      OddNeedsLetter(tokens[i], k);
      GroupsByLastNamed(tokens, Short(tokens[i][1]));
      assert IsLetter(Short(tokens[i][1])) && Has(t, Short(tokens[i][1]));
    }
  }

  /** Only the empty option owns values without being named; the empty option and the empty
      long name are never named. */
  lemma {:induction false} OwnersAreNamed(tokens: seq<CString>, k: Key)
    ensures k != EMPTY_KEY && (ValuesOf(tokens, k) != [] || Owner(tokens) == k) ==> NamedIn(tokens, k)
    ensures k == EMPTY_KEY || k == Long("") ==> !NamedIn(tokens, k)
  {
    if tokens != [] {
      var front, last := tokens[..|tokens| - 1], tokens[|tokens| - 1];
      OwnersAreNamed(front, k);
      assert tokens == front + [last];
      NamedInConcat(front, last, k);
      if IsOption(last) && !IsLong(last) {
        assert last[1..][|last| - 2] == last[|last| - 1];
        assert forall c :: c in last[1..] ==> c in last;
      }
    }
  }

  // ----- listings -----

  function ShortKeys(t: Tables): set<Key> {
    set c | c in t.short && c != EMPTY_OPTION :: Short(c)
  }

  function LongKeys(t: Tables): set<Key> {
    set name | name in t.long :: Long(name)
  }

  lemma {:induction false} SequenceOf(keys: set<Key>) returns (r: seq<Key>)
    ensures forall k :: k in r <==> k in keys
    ensures forall i, j :: 0 <= i < j < |r| ==> r[i] != r[j]
  {
    if keys == {} {
      r := [];
    } else {
      var k :| k in keys;
      var rest := SequenceOf(keys - {k});
      r := [k] + rest;
    }
  }

  lemma ListingExists(t: Tables) returns (keys: seq<Key>, lead: char)
    requires Renderable(t)
    ensures Listing(t, keys, lead)
  {
    var all := ShortKeys(t) + LongKeys(t);
    assert forall k :: k in all <==> k != EMPTY_KEY && Has(t, k);
    if letter :| IsLetter(letter) && letter in all {
      var rest := SequenceOf(all - {letter});
      keys, lead := [letter] + rest, letter.c;
    } else {
      keys := SequenceOf(all);
      lead := 'a';
    }
  }

  /** The renderable tables are exactly those that grouping some tokens leads to. */
  lemma RenderableIffParsed(t: Tables)
    ensures Renderable(t) <==> exists tokens :: Parse(tokens) == t
  {
    if Renderable(t) {
      var keys, lead := ListingExists(t);
      RoundTrip(t, keys, lead);
    }
    if tokens :| Parse(tokens) == t {
      ParseIsRenderable(tokens);
    }
  }

  // ----- clusters -----

  /** A cluster written out: a token of its own for every character. */
  function Spelled(cluster: CString, lead: char): (tokens: seq<CString>)
    requires IsAlpha(lead)
    ensures |tokens| == |cluster|
    ensures forall i :: 0 <= i < |cluster| ==> tokens[i] == KeyToken(Short(cluster[i]), lead)
  {
    if cluster == "" then []
    else Spelled(cluster[..|cluster| - 1], lead) + [KeyToken(Short(cluster[|cluster| - 1]), lead)]
  }

  lemma {:induction false} FeedConcat(g: Grouping, a: seq<CString>, b: seq<CString>)
    ensures FeedAll(g, a + b) == FeedAll(FeedAll(g, a), b)
  {
    if b == [] {
      assert a + b == a;
    } else {
      assert (a + b)[..|a + b| - 1] == a + b[..|b| - 1];
      FeedConcat(g, a, b[..|b| - 1]);
    }
  }

  /** Naming an option that is there already changes nothing. */
  lemma TouchAgain(t: Tables, k: Key)
    requires Has(t, k)
    ensures Touch(t, k) == t
  {
  }

  lemma FeedCharacter(g: Grouping, c: char, lead: char)
    requires IsAlpha(lead) && c != EMPTY_OPTION && (IsOdd(Short(c)) ==> Has(g.tables, Short(lead)))
    ensures Feed(g, KeyToken(Short(c), lead)) == Grouping(Touch(g.tables, Short(c)), At(Short(c)))
  {
    var token, t := KeyToken(Short(c), lead), g.tables;
    KeyTokenNames(Short(c), lead, Short(c));
    if IsOdd(Short(c)) {
      TouchAgain(t, Short(lead));
      assert token[1..] == [lead, c];
      assert TouchAll(t, [lead]) == Touch(t, Short(lead)) by {
        assert [lead][..0] == "";
      }
      assert [lead, c][..1] == [lead];
    } else {
      assert token[1..] == [c];
      assert TouchAll(t, [c]) == Touch(t, Short(c)) by {
        assert [c][..0] == "";
      }
    }
  }

  lemma {:induction false} FeedSpelled(g: Grouping, cluster: CString)
    requires cluster != "" && IsAlpha(cluster[0])
    ensures FeedAll(g, Spelled(cluster, cluster[0])) ==
            Grouping(TouchAll(g.tables, cluster), At(Short(cluster[|cluster| - 1])))
  {
    var front, last := cluster[..|cluster| - 1], cluster[|cluster| - 1];
    var tokens := Spelled(cluster, cluster[0]);
    assert tokens[..|tokens| - 1] == Spelled(front, cluster[0]);
    assert last in cluster;
    if front == "" {
      assert Spelled(front, cluster[0]) == [];
      FeedCharacter(g, last, cluster[0]);
    } else {
      FeedSpelled(g, front);
      TouchAllData(g.tables, front, Short(cluster[0]));
      FeedCharacter(FeedAll(g, Spelled(front, cluster[0])), last, cluster[0]);
    }
  }

  /** A cluster stands for its characters named one by one, so the last one is current. */
  lemma ClusterIsSpelled(before: seq<CString>, cluster: CString, after: seq<CString>)
    requires cluster != "" && IsAlpha(cluster[0])
    ensures Parse(before + ["-" + cluster] + after) == Parse(before + Spelled(cluster, cluster[0]) + after)
  {
    var g, token := FeedAll(START, before), "-" + cluster;
    FeedInside(before, [token], after);
    FeedInside(before, Spelled(cluster, cluster[0]), after);
    FeedSpelled(g, cluster);
    FeedCluster(g, cluster);
  }

  lemma FeedInside(before: seq<CString>, tokens: seq<CString>, after: seq<CString>)
    ensures FeedAll(START, before + tokens + after) == FeedAll(FeedAll(FeedAll(START, before), tokens), after)
  {
    FeedConcat(START, before + tokens, after);
    FeedConcat(START, before, tokens);
  }

  lemma FeedCluster(g: Grouping, cluster: CString)
    requires cluster != "" && IsAlpha(cluster[0])
    ensures FeedAll(g, ["-" + cluster]) ==
            Grouping(TouchAll(g.tables, cluster), At(Short(cluster[|cluster| - 1])))
  {
    var token: CString := "-" + cluster;
    assert token[1..] == cluster;
    assert FeedAll(g, [token]) == Feed(g, token);
  }
}
