/** The budgeted walk over a binary's help tree (check_public_surface.py): the known surface, the
    paths a help text names, and the breadth-first walk over both.

    A help text arrives as its lines with the outcome of the expressions and indentation tests on
    them; running a command is a function from the command to those lines. */
module HelpWalk {
  import opened PythonText
  import opened Sequences
  import opened Wrappers

  type Path = seq<string>

  /** A command without the binary's own name. */
  type Command = seq<string>

  const MAX_DISCOVERED_HELP := 400
  const MAX_COMMAND_DEPTH := 4

  // ---------------------------------------------------------------- alternatives

  /** The alternatives of a word such as `list|show`. */
  function Choices(word: string): seq<string> {
    Split(word, '|')
  }

  /** All paths extended by one choice, path by path. */
  function Extend(paths: seq<Path>, choices: seq<string>): seq<Path> {
    if paths == [] then []
    else
      var n := |paths| - 1;
      Extend(paths[..n], choices) + seq(|choices|, i requires 0 <= i < |choices| => paths[n] + [choices[i]])
  }

  function Expansion(words: seq<string>): seq<Path> {
    if words == [] then [[]] else Extend(Expansion(words[..|words| - 1]), Choices(words[|words| - 1]))
  }

  lemma {:induction false} ExtendHolds(paths: seq<Path>, choices: seq<string>, path: Path)
    ensures path in Extend(paths, choices) <==> path != [] && path[..|path| - 1] in paths && path[|path| - 1] in choices
  {
    if paths != [] {
      var n := |paths| - 1;
      ExtendHolds(paths[..n], choices, path);
      assert paths == paths[..n] + [paths[n]];
      var new_ := seq(|choices|, i requires 0 <= i < |choices| => paths[n] + [choices[i]]);
      if path in new_ {
        var i :| 0 <= i < |choices| && new_[i] == path;
        assert path[..|path| - 1] == paths[n] && path[|path| - 1] == choices[i];
      }
      if path != [] && path[..|path| - 1] == paths[n] && path[|path| - 1] in choices {
        var i :| 0 <= i < |choices| && choices[i] == path[|path| - 1];
        assert new_[i] == path;
      }
    }
  }

  predicate IsChoice(path: Path, words: seq<string>) {
    |path| == |words| && forall i :: 0 <= i < |words| ==> path[i] in Choices(words[i])
  }

  /** Expanding alternatives gives exactly the paths that choose one alternative of each word. */
  lemma {:induction false} ExpansionHolds(words: seq<string>, path: Path)
    ensures path in Expansion(words) <==> IsChoice(path, words)
    decreases |words|
  {
    hide Choices, Expansion;
    if words == [] {
      NoWords();
    } else {
      var n := |words| - 1;
      ExpansionStep(words);
      ExtendHolds(Expansion(words[..n]), Choices(words[n]), path);
      if path != [] {
        ExpansionHolds(words[..n], path[..|path| - 1]);
        ChoiceStep(path, words);
      }
    }
  }

  lemma {:induction false} NoWords()
    ensures Expansion([]) == [[]]
  {
  }

  lemma {:induction false} ExpansionStep(words: seq<string>)
    requires words != []
    ensures Expansion(words) == Extend(Expansion(words[..|words| - 1]), Choices(words[|words| - 1]))
  {
  }

  lemma {:induction false} ChoiceStep(path: Path, words: seq<string>)
    requires path != [] && words != []
    ensures IsChoice(path, words) <==>
              IsChoice(path[..|path| - 1], words[..|words| - 1]) && path[|path| - 1] in Choices(words[|words| - 1])
  {
    hide Choices;
    var front := path[..|path| - 1];
    assert forall i :: 0 <= i < |front| ==> front[i] == path[i];
    if IsChoice(front, words[..|words| - 1]) && path[|path| - 1] in Choices(words[|words| - 1]) {
      forall i | 0 <= i < |words| ensures path[i] in Choices(words[i]) {
        if i < |words| - 1 { assert words[..|words| - 1][i] == words[i]; }
      }
    }
  }

  /** `_expand`. */
  method Expand(words: seq<string>) returns (paths: seq<Path>)
    ensures paths == Expansion(words)
  {
    hide Choices;
    paths := [[]];
    for i := 0 to |words|
      invariant paths == Expansion(words[..i])
    {
      var choices := Choices(words[i]);
      var longer: seq<Path> := [];
      for j := 0 to |paths|
        invariant longer == Extend(paths[..j], choices)
      {
        ghost var row := seq(|choices|, k requires 0 <= k < |choices| => paths[j] + [choices[k]]);
        ghost var before := longer;
        assert before + row[..0] == before;
        for k := 0 to |choices|
          invariant longer == before + row[..k]
        {
          longer := longer + [paths[j] + [choices[k]]];
          assert row[..k + 1] == row[..k] + [row[k]];
        }
        assert row[..|choices|] == row;
        assert paths[..j + 1][..j] == paths[..j];
      }
      assert paths[..|paths|] == paths;
      assert words[..i + 1][..i] == words[..i];
      paths := longer;
    }
    assert words[..|words|] == words;
  }

  // ---------------------------------------------------------------- the paths a help text names

  /** One line: whether it heads a command section, the entry it names there, whether it is blank or
      deeply indented, and the command words after `cli`, if it is a usage line. */
  datatype Line = Line(header: bool, entry: Option<string>, blank: bool, indented: bool, usage: bool, words: seq<string>)

  /** The prefixes of every expanded path, shortest first. */
  function PrefixesOf(path: Path, n: nat): seq<Path>
    requires n <= |path|
  {
    if n == 0 then [] else PrefixesOf(path, n - 1) + [path[..n]]
  }

  function AllPrefixes(paths: seq<Path>): seq<Path> {
    if paths == [] then []
    else
      var n := |paths| - 1;
      AllPrefixes(paths[..n]) + PrefixesOf(paths[n], |paths[n]|)
  }

  /** `in_section` after a line. */
  function SectionAfter(line: Line, inSection: bool): bool {
    if line.header then true
    else if !inSection || line.entry.Some? || line.blank then inSection
    else line.indented
  }

  /** What one line adds: a section entry is a subcommand of the current path, a usage line names the
      prefixes of all its alternatives. */
  function LineAdds(line: Line, inSection: bool, current: Path): seq<Path> {
    if line.header then []
    else if inSection && line.entry.Some? then [current + [line.entry.value]]
    else if line.usage then AllPrefixes(Expansion(line.words))
    else []
  }

  function InSection(lines: seq<Line>): bool {
    lines != [] && SectionAfter(lines[|lines| - 1], InSection(lines[..|lines| - 1]))
  }

  function Found(lines: seq<Line>, current: Path): seq<Path> {
    if lines == [] then []
    else
      var n := |lines| - 1;
      Found(lines[..n], current) + LineAdds(lines[n], InSection(lines[..n]), current)
  }

  function Unique(found: seq<Path>): seq<Path> {
    if found == [] then []
    else
      var n := |found| - 1;
      var before := Unique(found[..n]);
      if found[n] != [] && found[n] !in before then before + [found[n]] else before
  }

  function Discovered(lines: seq<Line>, current: Path): seq<Path> {
    Unique(Found(lines, current))
  }

  lemma {:induction false} UniqueHolds(found: seq<Path>)
    ensures Distinct(Unique(found))
    ensures forall p :: p in Unique(found) <==> p in found && p != []
  {
    hide Distinct;
    if found != [] {
      var n := |found| - 1;
      UniqueHolds(found[..n]);
      assert found == found[..n] + [found[n]];
      if found[n] != [] && found[n] !in Unique(found[..n]) { DistinctAppend(Unique(found[..n]), found[n]); }
    } else {
      assert Distinct<Path>([]) by { NothingRepeats<Path>(); }
    }
  }

  lemma {:induction false} PrefixesHold(path: Path, n: nat, p: Path)
    requires n <= |path|
    ensures p in PrefixesOf(path, n) <==> 1 <= |p| <= n && p == path[..|p|]
  {
    if n > 0 { PrefixesHold(path, n - 1, p); }
  }

  lemma {:induction false} AllPrefixesHold(paths: seq<Path>, p: Path)
    ensures p in AllPrefixes(paths) <==> p != [] && exists q :: q in paths && |p| <= |q| && p == q[..|p|]
  {
    if paths != [] {
      var n := |paths| - 1;
      AllPrefixesHold(paths[..n], p);
      PrefixesHold(paths[n], |paths[n]|, p);
      assert paths == paths[..n] + [paths[n]];
    }
  }

  /** Line `i` stands in a section: after a header and before anything that ends its section, which
      is a line that names no entry, is not blank and is not deeply indented. */
  ghost predicate Inside(lines: seq<Line>, i: nat)
    requires i <= |lines|
  {
    exists j :: 0 <= j < i && lines[j].header && forall k :: j < k < i ==> Continues(lines[k])
  }

  predicate Continues(line: Line) {
    line.header || line.entry.Some? || line.blank || line.indented
  }

  lemma {:induction false} InSectionMeaning(lines: seq<Line>)
    ensures InSection(lines) <==> Inside(lines, |lines|)
  {
    hide Inside;
    if lines == [] {
      NotInside(lines);
    } else {
      var n := |lines| - 1;
      InSectionMeaning(lines[..n]);
      InsideNext(lines, n);
      InsidePrefix(lines, n, n);
    }
  }

  lemma {:induction false} NotInside(lines: seq<Line>)
    ensures !Inside(lines, 0)
  {
  }

  lemma {:induction false} InsideNext(lines: seq<Line>, n: nat)
    requires n < |lines|
    ensures Inside(lines, n + 1) <==> lines[n].header || (Inside(lines, n) && Continues(lines[n]))
  {
    if Inside(lines, n) && Continues(lines[n]) {
      var j :| 0 <= j < n && lines[j].header && forall k :: j < k < n ==> Continues(lines[k]);
      assert forall k :: j < k < n + 1 ==> Continues(lines[k]);
    }
    if Inside(lines, n + 1) && !lines[n].header {
      var j :| 0 <= j < n + 1 && lines[j].header && forall k :: j < k < n + 1 ==> Continues(lines[k]);
      assert Continues(lines[n]);
    }
  }

  lemma {:induction false} InsidePrefix(lines: seq<Line>, n: nat, i: nat)
    requires i <= n <= |lines|
    ensures Inside(lines[..n], i) <==> Inside(lines, i)
  {
    if Inside(lines, i) {
      var j :| 0 <= j < i && lines[j].header && forall k :: j < k < i ==> Continues(lines[k]);
      assert lines[..n][j].header && forall k :: j < k < i ==> Continues(lines[..n][k]);
    }
    if Inside(lines[..n], i) {
      var j :| 0 <= j < i && lines[..n][j].header && forall k :: j < k < i ==> Continues(lines[..n][k]);
      assert forall k :: j < k < i ==> lines[..n][k] == lines[k];
    }
  }

  /** An entry of a section. */
  ghost predicate SectionEntry(lines: seq<Line>, i: nat, word: string)
    requires i < |lines|
  {
    !lines[i].header && Inside(lines, i) && lines[i].entry == Some(word)
  }

  /** A usage line that is no entry of a section offers a path: one alternative of each of its words. */
  ghost predicate Offers(lines: seq<Line>, i: nat, path: Path)
    requires i < |lines|
  {
    && !lines[i].header && lines[i].usage && !(Inside(lines, i) && lines[i].entry.Some?)
    && |path| == |lines[i].words|
    && forall k :: 0 <= k < |path| ==> path[k] in Split(lines[i].words[k], '|')
  }

  /** What a line names, without the order of discovery. */
  ghost predicate LineNames(lines: seq<Line>, i: nat, current: Path, p: Path)
    requires i < |lines|
  {
    || (exists word :: SectionEntry(lines, i, word) && p == current + [word])
    || (p != [] && exists q :: Offers(lines, i, q) && |p| <= |q| && p == q[..|p|])
  }

  /** A help text names exactly: the section entries under the current path, and all non-empty prefixes
      of all alternatives of its usage lines; each once. */
  lemma {:induction false} DiscoveredHolds(lines: seq<Line>, current: Path, p: Path)
    ensures Distinct(Discovered(lines, current))
    ensures p in Discovered(lines, current) <==> exists i :: 0 <= i < |lines| && LineNames(lines, i, current, p)
  {
    hide Unique, Found, LineNames;
    UniqueHolds(Found(lines, current));
    FoundHolds(lines, current, p);
    if p == [] { NamesAreNotEmpty(lines, current); }
  }

  lemma {:induction false} NamesAreNotEmpty(lines: seq<Line>, current: Path)
    ensures forall i :: 0 <= i < |lines| ==> !LineNames(lines, i, current, [])
  {
    hide SectionEntry, Offers;
  }

  lemma {:induction false} FoundHolds(lines: seq<Line>, current: Path, p: Path)
    ensures p in Found(lines, current) <==> exists i :: 0 <= i < |lines| && LineNames(lines, i, current, p)
  {
    hide LineNames, LineAdds;
    if lines != [] {
      var n := |lines| - 1;
      FoundHolds(lines[..n], current, p);
      LineAddsHold(lines, n, current, p);
      forall i | 0 <= i < n ensures LineNames(lines[..n], i, current, p) <==> LineNames(lines, i, current, p) {
        SameLine(lines, n, i, current, p);
      }
    }
  }

  lemma {:induction false} SameLine(lines: seq<Line>, n: nat, i: nat, current: Path, p: Path)
    requires i < n <= |lines|
    ensures LineNames(lines[..n], i, current, p) <==> LineNames(lines, i, current, p)
  {
    hide Inside;
    assert lines[..n][i] == lines[i];
    InsidePrefix(lines, n, i);
    forall word ensures SectionEntry(lines[..n], i, word) <==> SectionEntry(lines, i, word) {}
    forall q ensures Offers(lines[..n], i, q) <==> Offers(lines, i, q) {}
  }

  lemma {:induction false} LineAddsHold(lines: seq<Line>, i: nat, current: Path, p: Path)
    requires i < |lines|
    ensures p in LineAdds(lines[i], InSection(lines[..i]), current) <==> LineNames(lines, i, current, p)
  {
    hide InSection, Inside, IsChoice, Expansion, AllPrefixes, Offers, SectionEntry;
    var line := lines[i];
    InSectionMeaning(lines[..i]);
    InsidePrefix(lines, i, i);
    AllPrefixesHold(Expansion(line.words), p);
    forall q ensures Offers(lines, i, q) <==>
                       !line.header && line.usage && !(Inside(lines, i) && line.entry.Some?) && q in Expansion(line.words)
    {
      ExpansionHolds(line.words, q);
      OffersChoices(lines, i, q);
    }
    forall word ensures SectionEntry(lines, i, word) <==> !line.header && Inside(lines, i) && line.entry == Some(word) {
      EntryIs(lines, i, word);
    }
  }

  lemma {:induction false} OffersChoices(lines: seq<Line>, i: nat, q: Path)
    requires i < |lines|
    ensures Offers(lines, i, q) <==>
              !lines[i].header && lines[i].usage && !(Inside(lines, i) && lines[i].entry.Some?) && IsChoice(q, lines[i].words)
  {
    hide Inside;
  }

  lemma {:induction false} EntryIs(lines: seq<Line>, i: nat, word: string)
    requires i < |lines|
    ensures SectionEntry(lines, i, word) <==> !lines[i].header && Inside(lines, i) && lines[i].entry == Some(word)
  {
    hide Inside;
  }

  /** `discovered_paths`. */
  method DiscoveredPaths(lines: seq<Line>, current: Path) returns (unique: seq<Path>)
    ensures unique == Discovered(lines, current)
  {
    hide Expansion, Unique;
    var found: seq<Path> := [];
    var inSection := false;
    for i := 0 to |lines|
      invariant found == Found(lines[..i], current) && inSection == InSection(lines[..i])
    {
      var line := lines[i];
      assert lines[..i + 1][..i] == lines[..i];
      assert found + [] == found;
      if line.header {
        inSection := true;
        continue;
      }
      if inSection {
        if line.entry.Some? {
          found := found + [current + [line.entry.value]];
          continue;
        }
        if !line.blank {
          inSection := line.indented;
        }
      }
      // The section test above only decides about later lines: a usage line counts either way.
      if !line.usage {
        continue;
      }
      var paths := Expand(line.words);
      var prefixes := CollectPrefixes(paths);
      found := found + prefixes;
    }
    assert lines[..|lines|] == lines;
    unique := WithoutRepetition(found);
  }

  /** The closing loop: first occurrences of the paths that are not empty. */
  method WithoutRepetition(found: seq<Path>) returns (unique: seq<Path>)
    ensures unique == Unique(found)
  {
    unique := [];
    for i := 0 to |found|
      invariant unique == Unique(found[..i])
    {
      assert found[..i + 1][..i] == found[..i];
      if found[i] != [] && found[i] !in unique {
        unique := unique + [found[i]];
      }
    }
    assert found[..|found|] == found;
  }

  method CollectPrefixes(paths: seq<Path>) returns (found: seq<Path>)
    ensures found == AllPrefixes(paths)
  {
    found := [];
    for i := 0 to |paths|
      invariant found == AllPrefixes(paths[..i])
    {
      ghost var before := found;
      assert before + [] == before;
      for end := 0 to |paths[i]|
        invariant found == before + PrefixesOf(paths[i], end)
      {
        found := found + [paths[i][..end + 1]];
      }
      assert paths[..i + 1][..i] == paths[..i];
    }
    assert paths[..|paths|] == paths;
  }

  // ---------------------------------------------------------------- the known surface

  /** The paths of the manifest: every non-empty prefix of an operation's words, once. */
  function ManifestPaths(operations: seq<Path>): seq<Path> {
    Unique(AllPrefixes(operations))
  }

  /** `command_paths`. */
  method CommandPaths(operations: seq<Path>) returns (paths: seq<Path>)
    ensures paths == ManifestPaths(operations)
  {
    hide Unique;
    paths := [];
    assert Unique([]) == [] by { NothingIsUnique(); }
    for i := 0 to |operations|
      invariant paths == Unique(AllPrefixes(operations[..i]))
    {
      var words := operations[i];
      ghost var before := AllPrefixes(operations[..i]);
      assert before + [] == before;
      for end := 0 to |words|
        invariant paths == Unique(before + PrefixesOf(words, end))
      {
        var path := words[..end + 1];
        Associative(before, PrefixesOf(words, end), [path]);
        UniqueMore(before + PrefixesOf(words, end), path);
        if path !in paths {
          paths := paths + [path];
        }
      }
      assert operations[..i + 1][..i] == operations[..i];
    }
    assert operations[..|operations|] == operations;
  }

  lemma {:induction false} NothingIsUnique()
    ensures Unique([]) == []
  {
  }

  lemma {:induction false} UniqueMore(found: seq<Path>, path: Path)
    ensures Unique(found + [path]) == if path != [] && path !in Unique(found) then Unique(found) + [path] else Unique(found)
  {
    assert (found + [path])[..|found|] == found;
  }

  /** The topics below `cli`. */
  function BelowCli(topics: seq<seq<string>>): seq<Path> {
    if topics == [] then []
    else
      var n := |topics| - 1;
      BelowCli(topics[..n]) + (if |topics[n]| > 1 && topics[n][0] == "cli" then [topics[n][1..]] else [])
  }

  /** `topic_paths`. */
  method TopicPaths(topics: seq<seq<string>>) returns (paths: seq<Path>)
    ensures paths == Unique(BelowCli(topics))
  {
    hide Unique;
    paths := [];
    assert Unique([]) == [] by { NothingIsUnique(); }
    for i := 0 to |topics|
      invariant paths == Unique(BelowCli(topics[..i]))
    {
      var words := topics[i];
      assert topics[..i + 1][..i] == topics[..i];
      assert BelowCli(topics[..i]) + [] == BelowCli(topics[..i]);
      if |words| > 1 && words[0] == "cli" {
        UniqueMore(BelowCli(topics[..i]), words[1..]);
        if words[1..] !in paths {
          paths := paths + [words[1..]];
        }
      }
    }
    assert topics[..|topics|] == topics;
  }

  lemma {:induction false} BelowCliHolds(topics: seq<seq<string>>, p: Path)
    requires p != []
    ensures p in BelowCli(topics) <==> ["cli"] + p in topics
  {
    if topics != [] {
      var n := |topics| - 1;
      BelowCliHolds(topics[..n], p);
      assert topics == topics[..n] + [topics[n]];
      if |topics[n]| > 1 && topics[n][0] == "cli" { assert topics[n] == ["cli"] + topics[n][1..]; }
      assert (["cli"] + p)[0] == "cli" && (["cli"] + p)[1..] == p;
    }
  }

  function HelpOf(path: Path): Command {
    ["cli"] + path + ["--help"]
  }

  /** The entry points that are always run. */
  const FIXED: seq<Command> := [
    ["--help"], ["cli", "--help"], ["cli", "service", "operations"], ["cli", "service", "operations", "--json"],
    ["cli", "service", "capabilities"], ["cli", "service", "capabilities", "--json"], ["cli", "service", "guide"]]

  lemma {:induction false} HelpIsNotFixed(path: Path)
    requires path != []
    ensures HelpOf(path) !in FIXED
  {
    var c := HelpOf(path);
    assert c[|c| - 1] == "--help" && |c| > 2;
    forall i | 0 <= i < |FIXED| ensures FIXED[i] != c {
      assert |FIXED[i]| <= 2 || FIXED[i][|FIXED[i]| - 1] != "--help" by { FixedEndings(i); }
    }
  }

  lemma {:induction false} FixedEndings(i: nat)
    requires i < |FIXED|
    ensures |FIXED[i]| <= 2 || FIXED[i][|FIXED[i]| - 1] != "--help"
  {
    var word := FIXED[i][|FIXED[i]| - 1];
    assert |FIXED[i]| <= 2 || word[0] != '-' || word[2] != 'h';
  }

  lemma {:induction false} FixedDiffer()
    ensures Distinct(FIXED)
  {
    forall i, j | 0 <= i < j < |FIXED| ensures FIXED[i] != FIXED[j] {
      assert |FIXED[i]| != |FIXED[j]| || FIXED[i][2][0] != FIXED[j][2][0];
    }
  }

  lemma {:induction false} HelpInjective(p: Path, q: Path)
    requires HelpOf(p) == HelpOf(q)
    ensures p == q
  {
    assert p == HelpOf(p)[1..|HelpOf(p)| - 1];
    assert q == HelpOf(q)[1..|HelpOf(q)| - 1];
  }

  /** A path of the manifest or of the help topics. */
  ghost predicate KnownPath(p: Path, operations: seq<Path>, topics: seq<seq<string>>) {
    p != [] && ((exists q :: q in operations && |p| <= |q| && p == q[..|p|]) || ["cli"] + p in topics)
  }

  function KnownPaths(operations: seq<Path>, topics: seq<seq<string>>): seq<Path> {
    Unique(ManifestPaths(operations) + Unique(BelowCli(topics)))
  }

  lemma {:induction false} KnownPathsHold(operations: seq<Path>, topics: seq<seq<string>>, p: Path)
    ensures Distinct(KnownPaths(operations, topics))
    ensures p in KnownPaths(operations, topics) <==> KnownPath(p, operations, topics)
  {
    hide Unique, Distinct, AllPrefixes, BelowCli;
    UniqueHolds(ManifestPaths(operations) + Unique(BelowCli(topics)));
    UniqueHolds(AllPrefixes(operations));
    UniqueHolds(BelowCli(topics));
    AllPrefixesHold(operations, p);
    if p != [] { BelowCliHolds(topics, p); }
  }

  function HelpsOf(paths: seq<Path>): (commands: seq<Command>)
    ensures |commands| == |paths| && forall i :: 0 <= i < |paths| ==> commands[i] == HelpOf(paths[i])
  {
    seq(|paths|, i requires 0 <= i < |paths| => HelpOf(paths[i]))
  }

  /** `help_commands`: the fixed entry points, then one help command for each known path. */
  method HelpCommands(operations: seq<Path>, topics: seq<seq<string>>) returns (commands: seq<Command>)
    ensures commands == FIXED + HelpsOf(KnownPaths(operations, topics))
  {
    hide Unique;
    var commandPaths := CommandPaths(operations);
    var topicPaths := TopicPaths(topics);
    var paths := commandPaths;
    UniqueTwice(AllPrefixes(operations));
    assert commandPaths + topicPaths[..0] == commandPaths;
    for i := 0 to |topicPaths|
      invariant paths == Unique(commandPaths + topicPaths[..i])
    {
      assert commandPaths + topicPaths[..i + 1] == (commandPaths + topicPaths[..i]) + [topicPaths[i]];
      UniqueMore(commandPaths + topicPaths[..i], topicPaths[i]);
      assert topicPaths[i] != [] by {
        UniqueHolds(BelowCli(topics));
        assert topicPaths[i] in topicPaths;
      }
      if topicPaths[i] !in paths {
        paths := paths + [topicPaths[i]];
      }
    }
    assert topicPaths[..|topicPaths|] == topicPaths;
    commands := [
      ["--help"], ["cli", "--help"], ["cli", "service", "operations"], ["cli", "service", "operations", "--json"],
      ["cli", "service", "capabilities"], ["cli", "service", "capabilities", "--json"], ["cli", "service", "guide"]];
    ghost var helps := HelpsOf(paths);
    assert FIXED + helps[..0] == FIXED;
    for i := 0 to |paths|
      invariant commands == FIXED + helps[..i]
    {
      commands := commands + [HelpOf(paths[i])];
      assert helps[..i + 1] == helps[..i] + [helps[i]];
    }
    assert helps[..|paths|] == helps;
  }

  lemma {:induction false} UniqueTwice(found: seq<Path>)
    ensures Unique(Unique(found)) == Unique(found)
  {
    if found != [] {
      var n := |found| - 1;
      UniqueTwice(found[..n]);
      UniqueHolds(found[..n]);
      UniqueMore(Unique(found[..n]), found[n]);
    }
  }

  /** No known command occurs twice, and the help of every known path is among them. */
  lemma {:induction false} KnownCommandsDiffer(operations: seq<Path>, topics: seq<seq<string>>)
    ensures Distinct(FIXED + HelpsOf(KnownPaths(operations, topics)))
    ensures forall p :: KnownPath(p, operations, topics) ==> HelpOf(p) in FIXED + HelpsOf(KnownPaths(operations, topics))
  {
    hide KnownPaths, KnownPath, FIXED, HelpOf;
    var paths := KnownPaths(operations, topics);
    var commands := FIXED + HelpsOf(paths);
    FixedDiffer();
    KnownPathsHold(operations, topics, []);
    forall i, j | 0 <= i < j < |commands| ensures commands[i] != commands[j] {
      if j >= |FIXED| {
        var p := paths[j - |FIXED|];
        assert commands[j] == HelpOf(p) && p in paths;
        KnownPathsHold(operations, topics, p);
        assert p != [] by { KnownPathIsNotEmpty(p, operations, topics); }
        HelpIsNotFixed(p);
        if i >= |FIXED| {
          NotAgain(paths, i - |FIXED|, j - |FIXED|);
          if commands[i] == commands[j] { HelpInjective(paths[i - |FIXED|], p); }
        } else {
          assert commands[i] == FIXED[i] && FIXED[i] in FIXED;
        }
      } else {
        assert commands[i] == FIXED[i] && commands[j] == FIXED[j];
      }
    }
    forall p | KnownPath(p, operations, topics) ensures HelpOf(p) in commands {
      KnownPathsHold(operations, topics, p);
      var k :| 0 <= k < |paths| && paths[k] == p;
      assert commands[|FIXED| + k] == HelpOf(p);
    }
  }

  lemma {:induction false} KnownPathIsNotEmpty(p: Path, operations: seq<Path>, topics: seq<seq<string>>)
    requires KnownPath(p, operations, topics)
    ensures p != []
  {
  }

  lemma {:induction false} NotAgain(paths: seq<Path>, i: nat, j: nat)
    requires Distinct(paths) && i < j < |paths|
    ensures paths[i] != paths[j]
  {
  }

  // ---------------------------------------------------------------- the walk

  function CurrentOf(c: Command): Path {
    if |c| >= 2 && c[0] == "cli" && c[|c| - 1] == "--help" then c[1..|c| - 1] else []
  }

  /** The current path of a command: the path whose help it is, and none for every other command. */
  lemma {:induction false} CurrentOfHelp(c: Command)
    ensures forall p :: IsHelpOf(c, p) ==> CurrentOf(c) == p
    ensures (forall p :: !IsHelpOf(c, p)) ==> CurrentOf(c) == []
  {
    forall p | IsHelpOf(c, p) ensures CurrentOf(c) == p {
      assert c[1..|c| - 1] == p;
    }
    if |c| >= 2 && c[0] == "cli" && c[|c| - 1] == "--help" {
      assert c == ["cli"] + c[1..|c| - 1] + ["--help"];
      assert IsHelpOf(c, c[1..|c| - 1]);
    }
  }

  /** The path a command's section entries stand under: the one whose help it is, or none. */
  ghost predicate Under(c: Command, current: Path) {
    IsHelpOf(c, current) || (current == [] && forall q :: !IsHelpOf(c, q))
  }

  predicate IsHelpOf(c: Command, path: Path) {
    c == ["cli"] + path + ["--help"]
  }

  /** Some line of a command's output names the path. */
  ghost predicate NamedBy(run: Command -> seq<Line>, c: Command, p: Path) {
    exists i, current :: 0 <= i < |run(c)| && Under(c, current) && LineNames(run(c), i, current, p)
  }

  lemma {:induction false} UnderIsCurrent(c: Command, current: Path)
    ensures Under(c, current) <==> current == CurrentOf(c)
  {
    hide CurrentOf;
    CurrentOfHelp(c);
    if exists q :: IsHelpOf(c, q) {
      var q :| IsHelpOf(c, q);
      assert CurrentOf(c) == q;
    }
  }

  /** What `Names` means, without the functions that compute it. */
  lemma {:induction false} NamesMean(run: Command -> seq<Line>, c: Command, p: Path)
    ensures Names(run, c, p) <==> NamedBy(run, c, p) && |p| <= 4
  {
    hide Discovered, LineNames, CurrentOf, Under;
    DiscoveredHolds(run(c), CurrentOf(c), p);
    forall current ensures Under(c, current) <==> current == CurrentOf(c) { UnderIsCurrent(c, current); }
  }

  /** Entries under the help of a path, and paths that usage lines offer, are among what is named. */
  lemma {:induction false} EntriesAreNamed(run: Command -> seq<Line>, p: Path, i: nat, word: string)
    requires i < |run(["cli"] + p + ["--help"])| && SectionEntry(run(["cli"] + p + ["--help"]), i, word) && |p| < 4
    ensures Names(run, ["cli"] + p + ["--help"], p + [word])
  {
    hide SectionEntry, Offers, Names;
    var c := ["cli"] + p + ["--help"];
    assert Under(c, p) && LineNames(run(c), i, p, p + [word]);
    NamesMean(run, c, p + [word]);
  }

  lemma {:induction false} OffersAreNamed(run: Command -> seq<Line>, c: Command, i: nat, q: Path, n: nat)
    requires i < |run(c)| && Offers(run(c), i, q) && 1 <= n <= |q| && n <= 4
    ensures Names(run, c, q[..n])
  {
    hide SectionEntry, Offers, Names;
    var current := CurrentOf(c);
    UnderIsCurrent(c, current);
    assert q[..n] == q[..|q[..n]|];
    assert LineNames(run(c), i, current, q[..n]);
    NamesMean(run, c, q[..n]);
  }

  /** The paths the output of a command names that are worth a run. */
  ghost predicate Names(run: Command -> seq<Line>, c: Command, p: Path) {
    p in Discovered(run(c), CurrentOf(c)) && |p| <= MAX_COMMAND_DEPTH
  }

  /** The findings of the runs, the known commands being required to succeed. */
  function Findings<F>(ran: seq<Command>, known: nat, judge: (Command, bool) -> seq<F>): seq<F> {
    if ran == [] then []
    else
      var n := |ran| - 1;
      Findings(ran[..n], known, judge) + judge(ran[n], n < known)
  }

  /** The findings of runs under one requirement. */
  function Judged<F>(ran: seq<Command>, required: bool, judge: (Command, bool) -> seq<F>): seq<F> {
    if ran == [] then [] else Judged(ran[..|ran| - 1], required, judge) + judge(ran[|ran| - 1], required)
  }

  lemma {:induction false} FindingsOfKnown<F>(ran: seq<Command>, known: nat, judge: (Command, bool) -> seq<F>)
    requires |ran| <= known
    ensures Findings(ran, known, judge) == Judged(ran, true, judge)
  {
    if ran != [] { FindingsOfKnown(ran[..|ran| - 1], known, judge); }
  }

  /** The known commands must succeed, and the discovered ones after them may fail. */
  lemma {:induction false} FindingsMean<F>(ran: seq<Command>, known: nat, judge: (Command, bool) -> seq<F>)
    requires known <= |ran|
    ensures Findings(ran, known, judge) == Judged(ran[..known], true, judge) + Judged(ran[known..], false, judge)
  {
    if |ran| == known {
      FindingsOfKnown(ran, known, judge);
      assert ran[..known] == ran && ran[known..] == [];
    } else {
      var n := |ran| - 1;
      FindingsMean(ran[..n], known, judge);
      assert ran[..n][..known] == ran[..known] && ran[..n][known..] == ran[known..][..n - known];
      Associative(Judged(ran[..known], true, judge), Judged(ran[known..][..n - known], false, judge), judge(ran[n], false));
    }
  }

  /** Commands run so far and still queued: none twice, the known ones first, and each of the others
      named by the output of a command that was run. */
  ghost predicate Scheduled(known: seq<Command>, ran: seq<Command>, queue: seq<Command>, seen: set<Command>,
                            run: Command -> seq<Line>) {
    && known <= ran + queue && Distinct(ran + queue)
    && (forall c :: c in seen <==> c in ran + queue)
    && (forall c :: c in ran + queue && c !in known ==> exists b, p :: b in ran && Names(run, b, p) && c == HelpOf(p))
  }

  /** The outputs of all commands run were followed up to `from`. */
  ghost predicate Followed(ran: seq<Command>, seen: set<Command>, run: Command -> seq<Line>) {
    forall c, p :: c in ran && Names(run, c, p) ==> HelpOf(p) in seen
  }

  lemma {:induction false} ScheduleMore(known: seq<Command>, ran: seq<Command>, queue: seq<Command>, seen: set<Command>,
                                        run: Command -> seq<Line>, b: Command, p: Path)
    requires Scheduled(known, ran, queue, seen, run) && b in ran && Names(run, b, p) && HelpOf(p) !in seen
    ensures Scheduled(known, ran, queue + [HelpOf(p)], seen + {HelpOf(p)}, run)
  {
    hide Names, Distinct;
    assert ran + (queue + [HelpOf(p)]) == (ran + queue) + [HelpOf(p)];
    DistinctAppend(ran + queue, HelpOf(p));
  }

  lemma {:induction false} TakeNext(known: seq<Command>, ran: seq<Command>, queue: seq<Command>, seen: set<Command>,
                                    run: Command -> seq<Line>)
    requires Scheduled(known, ran, queue, seen, run) && queue != []
    ensures Scheduled(known, ran + [queue[0]], queue[1..], seen, run)
    ensures queue[0] !in ran && (queue[0] in known <==> |ran| < |known|)
  {
    hide Names;
    var all := ran + queue;
    assert (ran + [queue[0]]) + queue[1..] == all;
    assert all[|ran|] == queue[0];
    forall i | 0 <= i < |ran| ensures ran[i] != queue[0] { assert all[i] == ran[i]; }
    if queue[0] in known {
      var i :| 0 <= i < |known| && known[i] == queue[0];
      assert all[i] == known[i];
    }
    if |ran| < |known| { assert all[|ran|] == known[|ran|]; }
  }

  /** `walk_help`: the known commands all run first and once each, no command runs twice, the budget
      holds; and a walk that runs out of work has run every path of limited depth that any output
      named. */
  method WalkHelp<F>(known: seq<Command>, run: Command -> seq<Line>, judge: (Command, bool) -> seq<F>)
    returns (findings: seq<F>, count: nat, ghost ran: seq<Command>, ghost exhausted: bool)
    requires Distinct(known)
    ensures count == |ran| <= |known| + 400
    ensures known <= ran && Distinct(ran)
    ensures forall c :: c in ran && c !in known ==> exists b, p :: b in ran && NamedBy(run, b, p) && |p| <= 4 && c == HelpOf(p)
    ensures !exhausted ==> forall p, i, word ::
              HelpOf(p) in ran && 0 <= i < |run(HelpOf(p))| && SectionEntry(run(HelpOf(p)), i, word) && |p| < 4 ==>
                HelpOf(p + [word]) in ran
    ensures !exhausted ==> forall c, i, q, n ::
              c in ran && 0 <= i < |run(c)| && Offers(run(c), i, q) && 1 <= n <= |q| && n <= 4 ==> HelpOf(q[..n]) in ran
    ensures exhausted ==> count == |known| + 400
    ensures findings == Judged(ran[..|known|], true, judge) + Judged(ran[|known|..], false, judge)
  {
    hide Distinct, Names, Scheduled, Discovered, Judged;
    var seen: set<Command> := set c | c in known;
    var queue := seq(|known|, i requires 0 <= i < |known| => (known[i], true));
    ghost var waiting := known;
    findings, count, ran := [], 0, [];
    StartSchedule(known, seen, run);
    while queue != [] && count < |known| + MAX_DISCOVERED_HELP
      invariant count == |ran| <= |known| + MAX_DISCOVERED_HELP
      invariant |waiting| == |queue| && forall i :: 0 <= i < |queue| ==> queue[i].0 == waiting[i] && (queue[i].1 <==> queue[i].0 in known)
      invariant Scheduled(known, ran, waiting, seen, run)
      invariant Followed(ran, seen, run)
      invariant findings == Findings(ran, |known|, judge)
      decreases |known| + MAX_DISCOVERED_HELP - count
    {
      var (command, required) := queue[0];
      queue := queue[1..];
      TakeNext(known, ran, waiting, seen, run);
      waiting := waiting[1..];
      ghost var before := ran;
      ran := ran + [command];
      assert ran[..|before|] == before;
      count := count + 1;
      findings := findings + judge(command, required);
      var paths := DiscoveredPaths(run(command), CurrentOf(command));
      for i := 0 to |paths|
        invariant |waiting| == |queue| && forall k :: 0 <= k < |queue| ==> queue[k].0 == waiting[k] && (queue[k].1 <==> queue[k].0 in known)
        invariant Scheduled(known, ran, waiting, seen, run)
        invariant Followed(before, seen, run)
        invariant forall k :: 0 <= k < i && |paths[k]| <= MAX_COMMAND_DEPTH ==> HelpOf(paths[k]) in seen
      {
        var path := paths[i];
        var key := HelpOf(path);
        if |path| > MAX_COMMAND_DEPTH || key in seen {
          continue;
        }
        assert Names(run, command, path) by { IsNamed(run, command, paths, i); }
        KnownIsSeen(known, ran, waiting, seen, run);
        ScheduleMore(known, ran, waiting, seen, run, command, path);
        seen := seen + {key};
        queue := queue + [(key, false)];
        waiting := waiting + [key];
      }
      FollowedAll(before, command, paths, seen, run);
    }
    exhausted := queue != [];
    EndSchedule(known, ran, waiting, seen, run);
    FindingsMean(ran, |known|, judge);
    AllNamed(known, ran, run);
    if !exhausted { AllRun(ran, run); }
  }

  lemma {:induction false} AllNamed(known: seq<Command>, ran: seq<Command>, run: Command -> seq<Line>)
    requires forall c :: c in ran && c !in known ==> exists b, p :: b in ran && Names(run, b, p) && c == HelpOf(p)
    ensures forall c :: c in ran && c !in known ==> exists b, p :: b in ran && NamedBy(run, b, p) && |p| <= 4 && c == HelpOf(p)
  {
    hide Names, NamedBy;
    forall c | c in ran && c !in known ensures exists b, p :: b in ran && NamedBy(run, b, p) && |p| <= 4 && c == HelpOf(p) {
      var b, p :| b in ran && Names(run, b, p) && c == HelpOf(p);
      NamesMean(run, b, p);
    }
  }

  lemma {:induction false} AllRun(ran: seq<Command>, run: Command -> seq<Line>)
    requires forall c, p :: c in ran && Names(run, c, p) ==> HelpOf(p) in ran
    ensures forall p, i, word ::
              HelpOf(p) in ran && 0 <= i < |run(HelpOf(p))| && SectionEntry(run(HelpOf(p)), i, word) && |p| < 4 ==>
                HelpOf(p + [word]) in ran
    ensures forall c, i, q, n ::
              c in ran && 0 <= i < |run(c)| && Offers(run(c), i, q) && 1 <= n <= |q| && n <= 4 ==> HelpOf(q[..n]) in ran
  {
    hide Names, SectionEntry, Offers;
    forall p, i, word | HelpOf(p) in ran && 0 <= i < |run(HelpOf(p))| && SectionEntry(run(HelpOf(p)), i, word) && |p| < 4
      ensures HelpOf(p + [word]) in ran
    {
      EntriesAreNamed(run, p, i, word);
    }
    forall c, i, q, n | c in ran && 0 <= i < |run(c)| && Offers(run(c), i, q) && 1 <= n <= |q| && n <= 4
      ensures HelpOf(q[..n]) in ran
    {
      OffersAreNamed(run, c, i, q, n);
    }
  }

  lemma {:induction false} IsNamed(run: Command -> seq<Line>, c: Command, paths: seq<Path>, i: nat)
    requires paths == Discovered(run(c), CurrentOf(c)) && i < |paths| && |paths[i]| <= MAX_COMMAND_DEPTH
    ensures Names(run, c, paths[i])
  {
  }

  lemma {:induction false} StartSchedule(known: seq<Command>, seen: set<Command>, run: Command -> seq<Line>)
    requires Distinct(known) && seen == set c | c in known
    ensures Scheduled(known, [], known, seen, run) && Followed([], seen, run)
  {
    hide Names;
    assert [] + known == known;
  }

  lemma {:induction false} KnownIsSeen(known: seq<Command>, ran: seq<Command>, queue: seq<Command>,
                                       seen: set<Command>, run: Command -> seq<Line>)
    requires Scheduled(known, ran, queue, seen, run)
    ensures forall c :: c in known ==> c in seen
  {
    hide Names, Distinct;
    forall c | c in known ensures c in seen {
      var i :| 0 <= i < |known| && known[i] == c;
      assert (ran + queue)[i] == c;
    }
  }

  lemma {:induction false} FollowedAll(before: seq<Command>, command: Command, paths: seq<Path>, seen: set<Command>,
                                       run: Command -> seq<Line>)
    requires Followed(before, seen, run) && paths == Discovered(run(command), CurrentOf(command))
    requires forall k :: 0 <= k < |paths| && |paths[k]| <= MAX_COMMAND_DEPTH ==> HelpOf(paths[k]) in seen
    ensures Followed(before + [command], seen, run)
  {
    hide Discovered;
    forall c, p | c in before + [command] && Names(run, c, p) ensures HelpOf(p) in seen {
      if c !in before {
        var k :| 0 <= k < |paths| && paths[k] == p;
      }
    }
  }

  /** At the end all known commands have run, in front; with nothing left in the queue, everything seen
      has. */
  lemma {:induction false} EndSchedule(known: seq<Command>, ran: seq<Command>, queue: seq<Command>,
                                       seen: set<Command>, run: Command -> seq<Line>)
    requires Scheduled(known, ran, queue, seen, run) && (queue == [] || |ran| >= |known|)
    ensures known <= ran && Distinct(ran)
    ensures forall c :: c in ran && c !in known ==> exists b, p :: b in ran && Names(run, b, p) && c == HelpOf(p)
    ensures queue == [] ==> forall c :: c in seen ==> c in ran
  {
    hide Names;
    var all := ran + queue;
    assert queue == [] ==> all == ran;
    assert |known| <= |ran|;
    assert known == all[..|known|] == ran[..|known|];
    forall i, j | 0 <= i < j < |ran| ensures ran[i] != ran[j] { assert all[i] == ran[i] && all[j] == ran[j]; }
    forall c | c in ran ensures c in all {
      var i :| 0 <= i < |ran| && ran[i] == c;
      assert all[i] == c;
    }
  }
}
