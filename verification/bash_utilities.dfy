/**
  Shell-alias editing (utils/bash_utilities.py). The `.bashrc` file is its
  text (`None` when it does not exist); reading it by lines is
  `Strings.Lines`, writing lines back is `Strings.Concat`.
 */
module BashUtilities {
  import opened Base
  import opened Strings

  /** The characters `str.lstrip('alias ')` removes: a SET, not a prefix. */
  const AliasChars: set<char> := {'a', 'l', 'i', 's', ' '}

  /** The line start `replace_alias` searches for. */
  function AliasPrefix(name: string): string {
    "alias " + name + "="
  }

  /** `s` in single quotes. */
  function Quoted(s: string): string {
    "'" + s + "'"
  }

  /** `generate_alias(alias_name, commands)` */
  function GenerateAlias(name: string, commands: seq<string>): (a: string)
    ensures StartsWith(a, AliasPrefix(name))
  {
    AliasPrefix(name) + Quoted(Join(commands, " "))
  }

  /** The first line that starts with `prefix`, searching from line `from` on. */
  function FirstLineFrom(lines: seq<string>, prefix: string, from: nat): (r: Option<nat>)
    requires from <= |lines|
    ensures r.Some? ==> from <= r.value < |lines| && StartsWith(lines[r.value], prefix)
    ensures r.Some? ==> forall j :: from <= j < r.value ==> !StartsWith(lines[j], prefix)
    ensures r.None? ==> forall j :: from <= j < |lines| ==> !StartsWith(lines[j], prefix)
    decreases |lines| - from
  {
    if from == |lines| then None
    else if StartsWith(lines[from], prefix) then Some(from)
    else FirstLineFrom(lines, prefix, from + 1)
  }

  /** The loop of `replace_alias`: the first line that starts with `prefix`. */
  function FirstLine(lines: seq<string>, prefix: string): (r: Option<nat>)
    ensures r.Some? ==> r.value < |lines| && StartsWith(lines[r.value], prefix)
    ensures r.Some? ==> forall j :: 0 <= j < r.value ==> !StartsWith(lines[j], prefix)
    ensures r.None? ==> forall j :: 0 <= j < |lines| ==> !StartsWith(lines[j], prefix)
  {
    FirstLineFrom(lines, prefix, 0)
  }

  /** `first` is the first line that starts with `prefix`. */
  lemma {:induction false} FirstLineIs(lines: seq<string>, prefix: string, first: nat)
    requires first < |lines| && StartsWith(lines[first], prefix)
    requires forall j :: 0 <= j < first ==> !StartsWith(lines[j], prefix)
    ensures FirstLine(lines, prefix) == Some(first)
  {
  }

  /**
    `replace_alias(alias_name, new_content)`: rewrites the FIRST line that
    starts with `alias NAME=` to `alias NAME=CONTENT\n`, leaving every other
    line as it was; raises `ValueError` (writing nothing) when no line
    starts so, and `OSError` when there is no `.bashrc`.
   */
  function ReplaceAlias(bashrc: Option<string>, name: string, newContent: string): (r: Result<string, Error>)
    ensures bashrc.None? ==> r.Err? && r.error.OSError?
    ensures bashrc.Some? ==> (r.Err? <==> FirstLine(Lines(bashrc.value), AliasPrefix(name)).None?)
    ensures r.Err? && bashrc.Some? ==> r.error.ValueError?
    ensures r.Ok? ==> bashrc.Some? && var lines := Lines(bashrc.value);
      var first := FirstLine(lines, AliasPrefix(name));
      first.Some? && r.value == Concat(lines[first.value := AliasPrefix(name) + newContent + "\n"])
  {
    match bashrc
    case None => Err(OSError("No .bashrc file found."))
    case Some(text) =>
      var lines := Lines(text);
      match FirstLine(lines, AliasPrefix(name))
      case None => Err(ValueError("Alias '" + name + "' not found in .bashrc file."))
      case Some(i) =>
        Ok(Concat(lines[i := AliasPrefix(name) + newContent + "\n"]))
  }

  /** A string without line breaks, terminated, is one whole line. */
  lemma {:induction false} NewlineTerminated(s: string)
    requires '\n' !in s
    ensures IsLine(s + "\n") && Terminated(s + "\n")
  {
    var l := s + "\n";
    forall k | 0 <= k < |l| - 1 ensures l[k] != '\n' {
      assert l[k] == s[k];
    }
  }

  /**
    Read back, the rewritten `.bashrc` has the same number of lines and
    differs from the old one only in the first `alias NAME=` line, which now
    holds the new definition.
   */
  lemma {:induction false} ReplaceAliasRewritesOneLine(text: string, name: string, newContent: string)
    requires '\n' !in name && '\n' !in newContent
    requires ReplaceAlias(Some(text), name, newContent).Ok?
    ensures var lines := Lines(text);
      && FirstLine(lines, AliasPrefix(name)).Some?
      && Lines(ReplaceAlias(Some(text), name, newContent).value)
           == lines[FirstLine(lines, AliasPrefix(name)).value := AliasPrefix(name) + newContent + "\n"]
  {
    var lines := Lines(text);
    var i := FirstLine(lines, AliasPrefix(name)).value;
    var line := AliasPrefix(name) + newContent + "\n";
    var written := lines[i := line];
    assert '\n' !in AliasPrefix(name) + newContent;
    NewlineTerminated(AliasPrefix(name) + newContent);
    LinesWellSplit(text);
    assert WellSplit(written) by {
      forall j | 0 <= j < |written| ensures IsLine(written[j]) && (j < |written| - 1 ==> Terminated(written[j])) {
        if j != i {
          assert written[j] == lines[j];
        }
      }
    }
    LinesOfConcat(written);
  }

  /** Rewriting an alias to the definition its first line already holds changes nothing. */
  lemma {:induction false} ReplaceAliasWithSameLine(text: string, name: string, newContent: string)
    requires var lines := Lines(text); var first := FirstLine(lines, AliasPrefix(name));
      first.Some? && lines[first.value] == AliasPrefix(name) + newContent + "\n"
    ensures ReplaceAlias(Some(text), name, newContent) == Ok(text)
  {
    var lines := Lines(text);
    var i := FirstLine(lines, AliasPrefix(name)).value;
    assert lines[i := AliasPrefix(name) + newContent + "\n"] == lines;
    ConcatLines(text);
  }

  /**
    `alias_string_in_bashrc`: whether the text before the first `=` (the
    whole alias string when it has none) occurs ANYWHERE in the file, not
    necessarily at the start of a line.
   */
  function AliasStringInBashrc(aliasString: string, bashrc: string): (b: bool)
    ensures b <==> exists i :: OccursAt(bashrc, aliasString[..FirstIndexOf(aliasString, '=')], i)
  {
    SplitHead(aliasString, '=');
    ContainsAt(bashrc, aliasString[..FirstIndexOf(aliasString, '=')]);
    Contains(bashrc, Split(aliasString, '=')[0])
  }

  /** The file `add_alias_to_bash_profile` works on: an absent `.bashrc` is created empty. */
  function Existing(bashrc: Option<string>): string {
    if bashrc.Some? then bashrc.value else ""
  }

  /**
    `add_alias_to_bash_profile(alias_string, replace)`: creates an empty
    `.bashrc` if there is none; if the alias is absent appends it on a line
    of its own; if present raises `ValueError` unless `replace`, in which
    case it splits the alias string at `=` (raising unless there is exactly
    one) and calls `replace_alias` with the name `lstrip`ped of the
    characters of `'alias '`.
   */
  function AddAliasToBashProfile(bashrc: Option<string>, aliasString: string, replace: bool): (r: Result<string, Error>)
    ensures !AliasStringInBashrc(aliasString, Existing(bashrc)) ==>
      r == Ok(Existing(bashrc) + "\n" + aliasString + "\n")
    ensures AliasStringInBashrc(aliasString, Existing(bashrc)) && !replace ==> r.Err? && r.error.ValueError?
    ensures AliasStringInBashrc(aliasString, Existing(bashrc)) && replace && Count(aliasString, '=') != 1 ==>
      r.Err? && r.error.ValueError?
    ensures AliasStringInBashrc(aliasString, Existing(bashrc)) && replace && Count(aliasString, '=') == 1 ==>
      r == ReplaceAlias(Some(Existing(bashrc)), LStrip(Split(aliasString, '=')[0], AliasChars), Split(aliasString, '=')[1])
  {
    var text := Existing(bashrc);
    if AliasStringInBashrc(aliasString, text) then
      if !replace then Err(ValueError("Alias name already exists in .bashrc file."))
      else
        var parts := Split(aliasString, '=');
        if |parts| != 2 then
          Err(ValueError(if |parts| < 2 then "not enough values to unpack" else "too many values to unpack"))
        else ReplaceAlias(Some(text), LStrip(parts[0], AliasChars), parts[1])
    else Ok(text + "\n" + aliasString + "\n")
  }

  /** With `replace`, a present alias that splits in two goes to `replace_alias` with its stripped name. */
  lemma {:induction false} AddAliasReplaces(text: string, aliasString: string, name: string, content: string)
    requires AliasStringInBashrc(aliasString, text)
    requires Split(aliasString, '=') == ["alias " + name, content]
    ensures AddAliasToBashProfile(Some(text), aliasString, true)
      == ReplaceAlias(Some(text), LStrip("alias " + name, AliasChars), content)
  {
  }

  /** The first part of a split is a prefix of the string. */
  lemma {:induction false} SplitHeadIsPrefix(s: string, c: char)
    ensures StartsWith(s, Split(s, c)[0])
  {
    if s != [] && s[0] != c {
      SplitHeadIsPrefix(s[1..], c);
    }
  }

  /** A string contains whatever a middle part of it starts with. */
  lemma {:induction false} ContainsInMiddle(a: string, b: string, c: string, needle: string)
    requires StartsWith(b, needle)
    ensures Contains(a + b + c, needle)
    decreases |a|
  {
    if a == [] {
      assert a + b + c == b + c;
      assert (b + c)[..|needle|] == b[..|needle|];
    } else {
      assert (a + b + c)[1..] == a[1..] + b + c;
      ContainsInMiddle(a[1..], b, c, needle);
    }
  }

  /**
    An alias that was appended is found by the presence test, so adding it
    a second time without `replace` raises `ValueError`.
   */
  lemma {:induction false} AppendedAliasIsFound(bashrc: Option<string>, aliasString: string)
    requires !AliasStringInBashrc(aliasString, Existing(bashrc))
    ensures var r := AddAliasToBashProfile(bashrc, aliasString, false);
      && r.Ok?
      && AliasStringInBashrc(aliasString, r.value)
      && AddAliasToBashProfile(Some(r.value), aliasString, false).Err?
  {
    var text := Existing(bashrc);
    SplitHeadIsPrefix(aliasString, '=');
    ContainsInMiddle(text + "\n", aliasString, "\n", Split(aliasString, '=')[0]);
  }

  /** A generated alias splits at `=` into `alias NAME` and the quoted commands. */
  lemma {:induction false} GeneratedAliasSplits(name: string, commands: seq<string>)
    requires '=' !in name && forall i :: 0 <= i < |commands| ==> '=' !in commands[i]
    ensures Split(GenerateAlias(name, commands), '=') == ["alias " + name, Quoted(Join(commands, " "))]
  {
    var head := "alias " + name;
    var content := Quoted(Join(commands, " "));
    assert '=' !in content by {
      JoinAvoids(commands, " ", '=');
    }
    assert '=' !in head;
    assert GenerateAlias(name, commands) == head + ['='] + content;
    SplitOnce(head, content, '=');
  }

  /**
    `lstrip('alias ')` recovers a name only when the name does not start
    with one of the characters `a`, `l`, `i`, `s` or space.
   */
  lemma {:induction false} LStripLosesName(name: string)
    requires name != [] && name[0] in AliasChars
    ensures LStrip("alias " + name, AliasChars) != name
  {
  }

  /** A `.bashrc` holding just one definition line of the alias `name`. */
  function OneDefinition(name: string, content: string): string {
    AliasPrefix(name) + content + "\n"
  }

  lemma {:induction false} OneDefinitionLines(name: string, content: string)
    requires '\n' !in name && '\n' !in content
    ensures Lines(OneDefinition(name, content)) == [OneDefinition(name, content)]
  {
    assert '\n' !in AliasPrefix(name) + content;
    NewlineTerminated(AliasPrefix(name) + content);
    SingleLine(OneDefinition(name, content));
  }

  /**
    The `lstrip` discrepancy: for a name made only of the characters
    `a`, `l`, `i`, `s` and space (such as `ls`), re-adding its generated
    alias with `replace` to a `.bashrc` that defines exactly that alias
    strips the whole name away, looks for a line starting with `alias =`,
    and raises `ValueError`.
   */
  lemma {:induction false} ReplaceLosesStrippedName(name: string, commands: seq<string>, content: string)
    requires name != [] && forall i :: 0 <= i < |name| ==> name[i] in AliasChars
    requires forall i :: 0 <= i < |commands| ==> '=' !in commands[i]
    requires '\n' !in content
    ensures AddAliasToBashProfile(Some(OneDefinition(name, content)), GenerateAlias(name, commands), true).Err?
  {
    var text := OneDefinition(name, content);
    var alias := GenerateAlias(name, commands);
    var quoted := Quoted(Join(commands, " "));
    assert '=' !in name && '\n' !in name by {
      assert '=' !in AliasChars && '\n' !in AliasChars;
    }
    assert Split(alias, '=') == ["alias " + name, quoted] by {
      GeneratedAliasSplits(name, commands);
    }
    assert AliasStringInBashrc(alias, text) by {
      assert text[..|"alias " + name|] == "alias " + name;
    }
    assert LStrip("alias " + name, AliasChars) == [] by {
      LStripAll("alias " + name, AliasChars);
    }
    AddAliasReplaces(text, alias, name, quoted);
    assert ReplaceAlias(Some(text), [], quoted).Err? by {
      OneDefinitionLines(name, content);
      assert text[6] == name[0] != '=' == AliasPrefix([])[6];
    }
  }

  /**
    The presence-test discrepancy: adding the alias `visit` with `replace`
    to a `.bashrc` that only defines `visitor` finds `alias visit` inside
    that line, then finds no line starting with `alias visit=` to replace,
    and raises `ValueError`; in general, any alias whose name extends the
    added one.
   */
  lemma {:induction false} ReplaceMissesLongerName(name: string, longer: string, commands: seq<string>, content: string)
    requires name != [] && name[0] !in AliasChars && '=' !in name && '\n' !in name
    requires longer != [] && longer[0] != '=' && '\n' !in longer
    requires forall i :: 0 <= i < |commands| ==> '=' !in commands[i]
    requires '\n' !in content
    ensures AddAliasToBashProfile(Some(OneDefinition(name + longer, content)), GenerateAlias(name, commands), true).Err?
  {
    var text := OneDefinition(name + longer, content);
    var alias := GenerateAlias(name, commands);
    var quoted := Quoted(Join(commands, " "));
    assert Split(alias, '=') == ["alias " + name, quoted] by {
      GeneratedAliasSplits(name, commands);
    }
    assert AliasStringInBashrc(alias, text) by {
      assert text[..|"alias " + name|] == "alias " + name;
    }
    assert LStrip("alias " + name, AliasChars) == name by {
      LStripThrough("alias ", name, AliasChars);
    }
    AddAliasReplaces(text, alias, name, quoted);
    LongerDefinitionIsNoMatch(name, longer, content, quoted);
  }

  /** A file that only defines a longer name has no line for `replace_alias` to rewrite. */
  lemma {:induction false} LongerDefinitionIsNoMatch(name: string, longer: string, content: string, newContent: string)
    requires '\n' !in name && longer != [] && longer[0] != '=' && '\n' !in longer && '\n' !in content
    ensures ReplaceAlias(Some(OneDefinition(name + longer, content)), name, newContent).Err?
  {
    var text := OneDefinition(name + longer, content);
    OneDefinitionLines(name + longer, content);
    assert text[|AliasPrefix(name)| - 1] == longer[0];
    assert !StartsWith(text, AliasPrefix(name));
  }

  // ---------------------------------------------------------------------
  // Corrected alias handling
  // ---------------------------------------------------------------------

  /** The name in `alias NAME=...`, with the literal prefix `alias ` removed. */
  function AliasName(aliasString: string): string {
    RemovePrefix(Split(aliasString, '=')[0], "alias ")
  }

  lemma {:induction false} GeneratedAliasName(name: string, commands: seq<string>)
    requires '=' !in name && forall i :: 0 <= i < |commands| ==> '=' !in commands[i]
    ensures AliasName(GenerateAlias(name, commands)) == name
  {
    GeneratedAliasSplits(name, commands);
    assert StartsWith("alias " + name, "alias ");
  }

  /** Whether some line of the file defines the alias `name`. */
  predicate Defines(bashrc: string, name: string) {
    FirstLine(Lines(bashrc), AliasPrefix(name)).Some?
  }

  /**
    `add_alias_to_bash_profile` as evidently intended: the alias counts as
    present only when a line starts with `alias NAME=`, and the name passed
    on to `replace_alias` is the alias string's name with the prefix
    `alias ` removed.
   */
  function AddAlias(bashrc: Option<string>, aliasString: string, replace: bool): (r: Result<string, Error>)
    ensures !Defines(Existing(bashrc), AliasName(aliasString)) ==>
      r == Ok(Existing(bashrc) + "\n" + aliasString + "\n")
    ensures Defines(Existing(bashrc), AliasName(aliasString)) && !replace ==> r.Err? && r.error.ValueError?
    ensures Defines(Existing(bashrc), AliasName(aliasString)) && replace && Count(aliasString, '=') != 1 ==>
      r.Err? && r.error.ValueError?
    ensures Defines(Existing(bashrc), AliasName(aliasString)) && replace && Count(aliasString, '=') == 1 ==>
      r == ReplaceAlias(Some(Existing(bashrc)), AliasName(aliasString), Split(aliasString, '=')[1])
  {
    var text := Existing(bashrc);
    var name := AliasName(aliasString);
    if Defines(text, name) then
      if !replace then Err(ValueError("Alias name already exists in .bashrc file."))
      else
        var parts := Split(aliasString, '=');
        if |parts| != 2 then
          Err(ValueError(if |parts| < 2 then "not enough values to unpack" else "too many values to unpack"))
        else ReplaceAlias(Some(text), name, parts[1])
    else Ok(text + "\n" + aliasString + "\n")
  }

  /** A line that does not start with `prefix` still does not once a line break is added. */
  lemma {:induction false} NewlineKeepsNoPrefix(l: string, prefix: string)
    requires '\n' !in prefix && !StartsWith(l, prefix)
    ensures !StartsWith(l + "\n", prefix)
  {
    if |prefix| <= |l| {
      assert (l + "\n")[..|prefix|] == l[..|prefix|];
    } else if |prefix| == |l| + 1 {
      assert (l + "\n")[|l|] == '\n' != prefix[|l|];
    }
  }

  /** The last line of a file that does not end with a line break holds none. */
  lemma {:induction false} LastLineUnterminated(text: string)
    requires text != [] && text[|text| - 1] != '\n'
    ensures var ls := Lines(text); ls != [] && '\n' !in ls[|ls| - 1]
  {
    var ls := Lines(text);
    LastLineEnds(text);
    LinesWellSplit(text);
    var l := ls[|ls| - 1];
    forall k | 0 <= k < |l| ensures l[k] != '\n' {
      if k == |l| - 1 {
        assert l[k] == text[|text| - 1];
      }
    }
  }

  /** Writing lines whose last one gained a line break writes one more line break. */
  lemma {:induction false} ConcatTerminateLast(ls: seq<string>)
    requires ls != []
    ensures var n := |ls| - 1; Concat(ls[..n] + [ls[n] + "\n"]) == Concat(ls) + "\n"
  {
    var n := |ls| - 1;
    var init, l := ls[..n], ls[n];
    assert ls == init + [l];
    ConcatAppend(init, [l]);
    ConcatAppend(init, [l + "\n"]);
    ConcatOne(l);
    ConcatOne(l + "\n");
  }

  /** Terminating a file whose last line is unterminated terminates that line. */
  lemma {:induction false} LinesTerminateLast(text: string)
    requires text != [] && text[|text| - 1] != '\n'
    ensures var ls := Lines(text); var n := |ls| - 1;
      ls != [] && Lines(text + "\n") == ls[..n] + [ls[n] + "\n"]
  {
    var ls := Lines(text);
    LastLineUnterminated(text);
    LinesWellSplit(text);
    var n := |ls| - 1;
    var ls' := ls[..n] + [ls[n] + "\n"];
    NewlineTerminated(ls[n]);
    ConcatLines(text);
    ConcatTerminateLast(ls);
    assert WellSplit(ls') by {
      forall j | 0 <= j < |ls'| ensures IsLine(ls'[j]) && (j < |ls'| - 1 ==> Terminated(ls'[j])) {
        if j < n {
          assert ls'[j] == ls[j];
        }
      }
    }
    LinesOfConcat(ls');
  }

  /** Appending a line break to a file does not make any line start with `prefix`. */
  lemma {:induction false} NewlineAddsNoDefinition(text: string, prefix: string)
    requires prefix != [] && '\n' !in prefix
    requires forall j :: 0 <= j < |Lines(text)| ==> !StartsWith(Lines(text)[j], prefix)
    ensures forall j :: 0 <= j < |Lines(text + "\n")| ==> !StartsWith(Lines(text + "\n")[j], prefix)
  {
    var ls := Lines(text);
    if text == [] || text[|text| - 1] == '\n' {
      LinesAppend(text, "\n");
      assert "" + "\n" == "\n";
      NewlineTerminated("");
      SingleLine("\n");
      assert "\n"[0] != prefix[0];
    } else {
      LinesTerminateLast(text);
      var n := |ls| - 1;
      var ls' := Lines(text + "\n");
      NewlineKeepsNoPrefix(ls[n], prefix);
      forall j | 0 <= j < |ls'| ensures !StartsWith(ls'[j], prefix) {
        if j < n {
          assert ls'[j] == ls[j];
        }
      }
    }
  }

  /** What the corrected add leaves behind: the alias's first definition line is the generated one. */
  predicate Installed(bashrc: string, name: string, alias: string) {
    var lines := Lines(bashrc);
    var first := FirstLine(lines, AliasPrefix(name));
    first.Some? && lines[first.value] == alias + "\n"
  }

  /** Rewriting the first definition line installs the new definition. */
  lemma {:induction false} ReplaceInstalls(text: string, name: string, content: string)
    requires '\n' !in name && '\n' !in content
    requires Defines(text, name)
    ensures var r := ReplaceAlias(Some(text), name, content);
      r.Ok? && Installed(r.value, name, AliasPrefix(name) + content)
  {
    var prefix := AliasPrefix(name);
    ReplaceAliasRewritesOneLine(text, name, content);
    var lines := Lines(text);
    var i := FirstLine(lines, prefix).value;
    var lines' := lines[i := prefix + content + "\n"];
    assert (prefix + content + "\n")[..|prefix|] == prefix;
    FirstLineIs(lines', prefix, i);
  }

  /** Appending a definition to a file that has none installs it. */
  lemma {:induction false} AppendInstalls(text: string, name: string, alias: string)
    requires '\n' !in name && '\n' !in alias
    requires StartsWith(alias, AliasPrefix(name))
    requires !Defines(text, name)
    ensures Installed(text + "\n" + alias + "\n", name, alias)
  {
    var prefix := AliasPrefix(name);
    var r := text + "\n" + alias + "\n";
    NewlineAddsNoDefinition(text, prefix);
    NewlineTerminated(alias);
    LinesAppend(text + "\n", alias + "\n");
    SingleLine(alias + "\n");
    assert r == (text + "\n") + (alias + "\n");
    var ls := Lines(r);
    var before := Lines(text + "\n");
    assert ls == before + [alias + "\n"];
    assert StartsWith(ls[|before|], prefix) by {
      assert ls[|before|] == alias + "\n";
      assert (alias + "\n")[..|prefix|] == alias[..|prefix|];
    }
    forall j | 0 <= j < |before| ensures !StartsWith(ls[j], prefix) {
      assert ls[j] == before[j];
    }
    FirstLineIs(ls, prefix, |before|);
  }

  /**
    With `replace`, the corrected add installs a generated alias whatever
    the `.bashrc` held before: afterwards the first line that defines the
    alias is the generated definition.
   */
  lemma {:induction false} AddAliasInstalls(bashrc: Option<string>, name: string, commands: seq<string>)
    requires '=' !in name && '\n' !in name
    requires forall i :: 0 <= i < |commands| ==> '=' !in commands[i] && '\n' !in commands[i]
    ensures var r := AddAlias(bashrc, GenerateAlias(name, commands), true);
      r.Ok? && Installed(r.value, name, GenerateAlias(name, commands))
  {
    var alias := GenerateAlias(name, commands);
    var text := Existing(bashrc);
    GeneratedAliasName(name, commands);
    GeneratedAliasSplits(name, commands);
    JoinAvoids(commands, " ", '\n');
    var content := Quoted(Join(commands, " "));
    assert alias == AliasPrefix(name) + content;
    if Defines(text, name) {
      ReplaceInstalls(text, name, content);
    } else {
      assert '\n' !in alias;
      AppendInstalls(text, name, alias);
    }
  }

  /** Adding the same generated alias twice with `replace` leaves the file as the first add left it. */
  lemma {:induction false} AddAliasIdempotent(bashrc: Option<string>, name: string, commands: seq<string>)
    requires '=' !in name && '\n' !in name
    requires forall i :: 0 <= i < |commands| ==> '=' !in commands[i] && '\n' !in commands[i]
    ensures var alias := GenerateAlias(name, commands);
      var r := AddAlias(bashrc, alias, true);
      r.Ok? && AddAlias(Some(r.value), alias, true) == r
  {
    var alias := GenerateAlias(name, commands);
    AddAliasInstalls(bashrc, name, commands);
    var t := AddAlias(bashrc, alias, true).value;
    GeneratedAliasName(name, commands);
    GeneratedAliasSplits(name, commands);
    var content := Quoted(Join(commands, " "));
    assert alias == AliasPrefix(name) + content;
    ReplaceAliasWithSameLine(t, name, content);
  }
}
