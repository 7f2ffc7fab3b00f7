/** The command-line parser object: its two option maps and the loops over argv. */
module OptionParsers {
  import opened OptionGrouping

  class OptionParser {
    var shortOps: map<char, OptionData>
    var longOps: map<CString, OptionData>
    var appName: CString

    ghost function Value(): Tables
      reads this
    {
      Tables(shortOps, longOps)
    }

    constructor (argv: seq<CString>)
      requires |argv| > 0
      ensures appName == argv[0] && Value() == OptionGrouping.Parse(argv[1..])
    {
      shortOps, longOps, appName := map[], map[], argv[0];
      new;
      Parse(argv);
    }

    /** operator[]: an option that is not there is created empty; no other changes. */
    method TouchKey(k: Key)
      modifies this
      ensures forall other :: Has(Value(), other) <==> other == k || Has(old(Value()), other)
      ensures forall other :: Data(Value(), other) == Data(old(Value()), other)
      ensures Value() == Touch(old(Value()), k) && appName == old(appName)
    {
      match k {
        case Short(c) => shortOps := shortOps[c := if c in shortOps then shortOps[c] else NEW_DATA];
        case Long(name) => longOps := longOps[name := if name in longOps then longOps[name] else NEW_DATA];
      }
    }

    method PushBack(k: Key, value: CString)
      modifies this
      ensures forall other :: Has(Value(), other) <==> other == k || Has(old(Value()), other)
      ensures forall other :: other != k ==> Data(Value(), other) == Data(old(Value()), other)
      ensures Data(Value(), k).args == Data(old(Value()), k).args + [value]
      ensures Value() == Append(old(Value()), k, [value]) && appName == old(appName)
    {
      match k {
        case Short(c) =>
          var data := if c in shortOps then shortOps[c] else NEW_DATA;
          shortOps := shortOps[c := data.(args := data.args + [value])];
        case Long(name) =>
          var data := if name in longOps then longOps[name] else NEW_DATA;
          longOps := longOps[name := data.(args := data.args + [value])];
      }
    }

    method Parse(argv: seq<CString>)
      requires |argv| > 0
      modifies this
      ensures appName == argv[0]
      ensures Value() == FeedAll(Grouping(old(Value()), NoOption), argv[1..]).tables
    {
      var currentData := NoOption;
      appName := argv[0];
      ghost var start, tokens := Grouping(Value(), NoOption), argv[1..];
      for i := 1 to |argv|
        invariant Grouping(Value(), currentData) == FeedAll(start, tokens[..i - 1])
        invariant appName == argv[0]
      {
        assert tokens[..i][..i - 1] == tokens[..i - 1] && tokens[i - 1] == argv[i];
        var current, next := CharAt(argv[i], 0), CharAt(argv[i], 1);
        if current == '-' && (IsAlpha(next) || next == '-') {
          if next == '-' && CharAt(argv[i], 2) != '\0' {
            currentData := At(Long(argv[i][2..]));
            TouchKey(Long(argv[i][2..]));
          } else {
            currentData := TouchCluster(argv[i]);
          }
        } else {
          if currentData == NoOption {
            currentData := At(Short(EMPTY_OPTION));
          }
          PushBack(currentData.key, argv[i]);
        }
      }
      assert tokens[..|argv| - 1] == tokens;
    }

    /** Every letter of a cluster is created; the last one is current. */
    method TouchCluster(token: CString) returns (currentData: Cursor)
      requires IsOption(token) && !IsLong(token)
      modifies this
      ensures Value() == TouchAll(old(Value()), token[1..]) && currentData == At(LastNamed(token))
      ensures appName == old(appName)
    {
      var j := 1;
      currentData := At(Short(token[j]));
      TouchKey(Short(token[j]));
      ghost var cluster := token[1..];
      assert cluster[..1] == [token[1]] && cluster[..1][..0] == [];
      j := j + 1;
      while CharAt(token, j) != '\0'
        invariant 2 <= j <= |token| && appName == old(appName)
        invariant Value() == TouchAll(old(Value()), cluster[..j - 1])
        invariant currentData == At(Short(token[j - 1]))
        decreases |token| - j
      {
        assert cluster[..j][..j - 1] == cluster[..j - 1];
        currentData := At(Short(token[j]));
        TouchKey(Short(token[j]));
        j := j + 1;
      }
      assert forall i :: 0 <= i < |token| ==> token[i] in token;
      assert cluster[..j - 1] == cluster;
    }

    /** True exactly when some option was not extracted yet. */
    method OptionsRemain() returns (remain: bool)
      ensures remain <==> exists k :: Has(Value(), k) && Data(Value(), k).flags == CmdLineNotExtracted
    {
      remain := false;
      var shorts := shortOps.Keys;
      while shorts != {} && !remain
        invariant shorts <= shortOps.Keys
        invariant remain ==> exists c :: c in shortOps && shortOps[c].flags == CmdLineNotExtracted
        invariant !remain ==> forall c :: c in shortOps.Keys - shorts ==> shortOps[c].flags != CmdLineNotExtracted
        decreases shorts
      {
        var c :| c in shorts;
        remain := shortOps[c].flags == CmdLineNotExtracted;
        shorts := shorts - {c};
      }
      if c :| remain && c in shortOps && shortOps[c].flags == CmdLineNotExtracted {
        assert Has(Value(), Short(c)) && Data(Value(), Short(c)).flags == CmdLineNotExtracted;
      }
      if !remain {
        var longs := longOps.Keys;
        while longs != {} && !remain
          invariant longs <= longOps.Keys
          invariant remain ==> exists name :: name in longOps && longOps[name].flags == CmdLineNotExtracted
          invariant !remain ==>
            forall name :: name in longOps.Keys - longs ==> longOps[name].flags != CmdLineNotExtracted
          decreases longs
        {
          var name :| name in longs;
          remain := longOps[name].flags == CmdLineNotExtracted;
          longs := longs - {name};
        }
        if name :| remain && name in longOps && longOps[name].flags == CmdLineNotExtracted {
          assert Has(Value(), Long(name)) && Data(Value(), Long(name)).flags == CmdLineNotExtracted;
        }
      }
    }
  }
}
