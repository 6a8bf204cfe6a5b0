/** Boot entries: the line-oriented parser and the kernel command line made from it. */
module BootEntry {
  import opened Prelude
  import opened Text

  datatype Entry = Entry(linux: Option<string>, initrds: seq<string>, options: Option<string>)

  const EMPTY := Entry(None, [], None)

  /** What one line of an entry file does. */
  function ParseLine(entry: Entry, raw: string): Entry {
    var line := Trim(raw);
    if StartsWith(line, '#') || line == [] then entry
    else
      var parts := Words(line);
      if parts == [] then entry
      else
        var value := JoinSpace(parts[1..]);
        if value == [] then entry
        else if parts[0] == "linux" then entry.(linux := Some(value))
        else if parts[0] == "initrd" then entry.(initrds := entry.initrds + [value])
        else if parts[0] == "options" then entry.(options := Some(value))
        else entry
  }

  function ParseLines(entry: Entry, lines: seq<string>): Entry {
    if lines == [] then entry else ParseLine(ParseLines(entry, lines[..|lines| - 1]), lines[|lines| - 1])
  }

  function ParseEntry(content: string): Entry {
    ParseLines(EMPTY, Lines(content))
  }

  /** The command line: the options, then an `initrd=` item for each image. */
  function AddInitrd(options: string, initrd: string): string {
    options + (if options == [] then "" else " ") + "initrd=" + Backslashes(initrd)
  }

  function CommandLine(options: string, initrds: seq<string>): string {
    if initrds == [] then options
    else AddInitrd(CommandLine(options, initrds[..|initrds| - 1]), initrds[|initrds| - 1])
  }

  function FinalOptions(entry: Entry): string {
    CommandLine(if entry.options.Some? then entry.options.value else "", entry.initrds)
  }

  // ---- What a line says, independently of how it is parsed ----

  /** A line says something if its first word is not a comment and a value follows it. */
  predicate Says(line: string) {
    |Words(line)| > 1 && !StartsWith(Words(line)[0], '#')
  }

  /** The values that some lines give to `key`, as words, in order. */
  function ValuesOf(lines: seq<string>, key: string): seq<seq<string>> {
    if lines == [] then []
    else
      var last := lines[|lines| - 1];
      ValuesOf(lines[..|lines| - 1], key) +
      if Says(last) && Words(last)[0] == key then [Words(last)[1..]] else []
  }

  lemma {:induction false} JoinFacts(words: seq<string>)
    requires forall w :: w in words ==> IsWord(w)
    ensures JoinSpace(words) == [] <==> words == []
  {
    if words != [] {
      assert words[0] in words;
    }
  }

  lemma FirstWord(s: string)
    requires Trimmed(s) && s != []
    ensures Words(s) != [] && IsWord(Words(s)[0]) && Words(s)[0][0] == s[0]
  {
    WordsAreWords(s);
    assert Words(s)[0] in Words(s);
  }

  /** A line is understood through its words alone, so whitespace around and between them makes no
      difference; comments, blank lines, unknown keys and empty values change nothing. */
  lemma LineMeaning(entry: Entry, line: string)
    ensures ParseLine(entry, line) ==
            if !Says(line) then entry
            else
              var value := JoinSpace(Words(line)[1..]);
              match Words(line)[0]
              case "linux" => entry.(linux := Some(value))
              case "initrd" => entry.(initrds := entry.initrds + [value])
              case "options" => entry.(options := Some(value))
              case _ => entry
  {
    WordsTrim(line);
    WordsAreWords(line);
    TrimFacts(line);
    if Trim(line) == [] {
      assert Words(Trim(line)) == [];
    } else {
      FirstWord(Trim(line));
      assert forall w :: w in Words(line)[1..] ==> w in Words(line);
      JoinFacts(Words(line)[1..]);
    }
  }

  /** So two lines that differ in whitespace alone mean the same. */
  lemma SameWordsSameMeaning(entry: Entry, a: string, b: string)
    requires Words(a) == Words(b)
    ensures ParseLine(entry, a) == ParseLine(entry, b)
  {
    LineMeaning(entry, a);
    LineMeaning(entry, b);
  }

  function Joined(values: seq<seq<string>>): seq<string> {
    seq(|values|, i requires 0 <= i < |values| => JoinSpace(values[i]))
  }

  function LastOf(values: seq<seq<string>>): Option<string> {
    if values == [] then None else Some(JoinSpace(values[|values| - 1]))
  }

  /** The parse in closed form: the last `linux` and `options` win, every `initrd` is kept in
      order. */
  lemma {:induction false} ParseMeaning(lines: seq<string>)
    ensures ParseLines(EMPTY, lines) ==
            Entry(LastOf(ValuesOf(lines, "linux")),
                  Joined(ValuesOf(lines, "initrd")),
                  LastOf(ValuesOf(lines, "options")))
  {
    if lines != [] {
      var front, last := lines[..|lines| - 1], lines[|lines| - 1];
      ParseMeaning(front);
      LineMeaning(ParseLines(EMPTY, front), last);
    }
  }

  lemma {:induction false} ValuesConcat(a: seq<string>, b: seq<string>, key: string)
    ensures ValuesOf(a + b, key) == ValuesOf(a, key) + ValuesOf(b, key)
  {
    if b == [] {
      assert a + b == a;
    } else {
      assert (a + b)[..|a + b| - 1] == a + b[..|b| - 1];
      ValuesConcat(a, b[..|b| - 1], key);
    }
  }

  lemma LastConcat(a: seq<string>, b: seq<string>, key: string)
    ensures LastOf(ValuesOf(a + b, key)) ==
            if LastOf(ValuesOf(b, key)).Some? then LastOf(ValuesOf(b, key)) else LastOf(ValuesOf(a, key))
  {
    ValuesConcat(a, b, key);
    assert ValuesOf(a, key) + [] == ValuesOf(a, key);
  }

  lemma JoinedConcat(a: seq<string>, b: seq<string>, key: string)
    ensures Joined(ValuesOf(a + b, key)) == Joined(ValuesOf(a, key)) + Joined(ValuesOf(b, key))
  {
    ValuesConcat(a, b, key);
  }

  /** Parsing distributes over concatenation: what comes later overrides `linux` and `options` and
      adds to `initrd`. */
  lemma ParseConcat(a: seq<string>, b: seq<string>)
    ensures var (first, second, both) := (ParseLines(EMPTY, a), ParseLines(EMPTY, b), ParseLines(EMPTY, a + b));
            && both.linux == (if second.linux.Some? then second.linux else first.linux)
            && both.options == (if second.options.Some? then second.options else first.options)
            && both.initrds == first.initrds + second.initrds
  {
    ParseMeaning(a);
    ParseMeaning(b);
    ParseMeaning(a + b);
    LastConcat(a, b, "linux");
    JoinedConcat(a, b, "initrd");
    LastConcat(a, b, "options");
  }

  // ---- The command line ----

  const PREFIX := "initrd="

  /** The words of one `initrd=` item. */
  function ItemWords(initrd: seq<string>): seq<string> {
    if initrd == [] then [PREFIX]
    else
      [PREFIX + Backslashes(initrd[0])] +
      seq(|initrd| - 1, i requires 0 <= i < |initrd| - 1 => Backslashes(initrd[i + 1]))
  }

  function ItemsWords(initrds: seq<seq<string>>): seq<string> {
    if initrds == [] then []
    else ItemsWords(initrds[..|initrds| - 1]) + ItemWords(initrds[|initrds| - 1])
  }

  ghost predicate AllWords(words: seq<string>) {
    forall w :: w in words ==> IsWord(w)
  }

  function BackslashEach(words: seq<string>): seq<string> {
    seq(|words|, i requires 0 <= i < |words| => Backslashes(words[i]))
  }

  lemma {:induction false} BackslashesOfJoin(words: seq<string>)
    ensures Backslashes(JoinSpace(words)) == JoinSpace(BackslashEach(words))
  {
    if |words| > 1 {
      BackslashesOfJoin(words[1..]);
      assert BackslashEach(words)[1..] == BackslashEach(words[1..]);
      assert Backslashes(words[0] + " " + JoinSpace(words[1..])) ==
             Backslashes(words[0]) + " " + Backslashes(JoinSpace(words[1..]));
    }
  }

  lemma PrefixOfJoin(words: seq<string>)
    requires words != []
    ensures PREFIX + JoinSpace(words) == JoinSpace([PREFIX + words[0]] + words[1..])
  {
    if |words| > 1 {
      assert ([PREFIX + words[0]] + words[1..])[1..] == words[1..];
      assert PREFIX + (words[0] + " " + JoinSpace(words[1..])) == PREFIX + words[0] + " " + JoinSpace(words[1..]);
    }
  }

  lemma BackslashWord(w: string)
    requires IsWord(w)
    ensures IsWord(Backslashes(w)) && IsWord(PREFIX + Backslashes(w))
  {
    forall c | c in Backslashes(w) ensures !IsSpace(c) {
      var i :| 0 <= i < |w| && Backslashes(w)[i] == c;
      assert w[i] in w;
    }
    forall c | c in PREFIX + Backslashes(w) ensures !IsSpace(c) {
    }
  }

  lemma ItemWordsShape(initrd: seq<string>)
    requires initrd != []
    ensures var words := BackslashEach(initrd);
            ItemWords(initrd) == [PREFIX + words[0]] + words[1..]
  {
  }

  lemma ItemWordsAreWords(initrd: seq<string>)
    requires initrd != [] && AllWords(initrd)
    ensures AllWords(ItemWords(initrd))
  {
    var words := BackslashEach(initrd);
    ItemWordsShape(initrd);
    assert initrd[0] in initrd;
    BackslashWord(initrd[0]);
    forall w | w in words[1..] ensures IsWord(w) {
      var i :| 0 <= i < |words[1..]| && words[1..][i] == w;
      assert initrd[i + 1] in initrd;
      BackslashWord(initrd[i + 1]);
    }
  }

  lemma ItemWordsCorrect(initrd: seq<string>)
    requires initrd != [] && AllWords(initrd)
    ensures Words(PREFIX + Backslashes(JoinSpace(initrd))) == ItemWords(initrd)
  {
    BackslashesOfJoin(initrd);
    PrefixOfJoin(BackslashEach(initrd));
    ItemWordsShape(initrd);
    ItemWordsAreWords(initrd);
    WordsOfJoin(ItemWords(initrd));
  }

  ghost predicate AllValues(values: seq<seq<string>>) {
    forall i :: 0 <= i < |values| ==> values[i] != [] && AllWords(values[i])
  }

  lemma AddInitrdWords(before: string, initrd: seq<string>)
    requires initrd != [] && AllWords(initrd)
    ensures Words(AddInitrd(before, JoinSpace(initrd))) == Words(before) + ItemWords(initrd)
  {
    var item := PREFIX + Backslashes(JoinSpace(initrd));
    ItemWordsCorrect(initrd);
    if before == [] {
      assert AddInitrd(before, JoinSpace(initrd)) == item;
    } else {
      assert AddInitrd(before, JoinSpace(initrd)) == before + [' '] + item;
      WordsSplit(before, ' ', item);
    }
  }

  lemma {:induction false} CommandLineWords(options: string, initrds: seq<seq<string>>)
    requires AllValues(initrds)
    ensures Words(CommandLine(options, Joined(initrds))) == Words(options) + ItemsWords(initrds)
  {
    if initrds != [] {
      var front, last := initrds[..|initrds| - 1], initrds[|initrds| - 1];
      CommandLineWords(options, front);
      CommandLineStep(options, initrds);
      Associate(Words(options), ItemsWords(front), ItemWords(last));
    }
  }

  lemma CommandLineStep(options: string, initrds: seq<seq<string>>)
    requires initrds != [] && AllValues(initrds)
    ensures var front, last := initrds[..|initrds| - 1], initrds[|initrds| - 1];
            Words(CommandLine(options, Joined(initrds))) ==
            Words(CommandLine(options, Joined(front))) + ItemWords(last)
  {
    assert Joined(initrds)[..|initrds| - 1] == Joined(initrds[..|initrds| - 1]);
    AddInitrdWords(CommandLine(options, Joined(initrds[..|initrds| - 1])), initrds[|initrds| - 1]);
  }

  lemma {:induction false} ValuesAreWords(lines: seq<string>, key: string)
    ensures AllValues(ValuesOf(lines, key))
  {
    if lines != [] {
      var last := lines[|lines| - 1];
      ValuesAreWords(lines[..|lines| - 1], key);
      WordsAreWords(last);
      assert forall i :: 1 <= i < |Words(last)| ==> Words(last)[i] in Words(last);
    }
  }

  function LastWords(values: seq<seq<string>>): seq<string> {
    if values == [] then [] else values[|values| - 1]
  }

  /** The words of the assembled command line are those of the last `options` line, then for each
      `initrd` line, in file order, its words with `initrd=` before the first and every slash turned
      round. */
  lemma FinalOptionsWords(lines: seq<string>)
    ensures Words(FinalOptions(ParseLines(EMPTY, lines))) ==
            LastWords(ValuesOf(lines, "options")) + ItemsWords(ValuesOf(lines, "initrd"))
  {
    ParseMeaning(lines);
    ValuesAreWords(lines, "options");
    ValuesAreWords(lines, "initrd");
    var entry := ParseLines(EMPTY, lines);
    var options := if entry.options.Some? then entry.options.value else "";
    assert Words(options) == LastWords(ValuesOf(lines, "options")) by {
      if ValuesOf(lines, "options") != [] {
        WordsOfJoin(LastWords(ValuesOf(lines, "options")));
      }
    }
    CommandLineWords(options, ValuesOf(lines, "initrd"));
  }

  /** And there is a single blank between any two of them, and no other whitespace. */
  lemma FinalOptionsExact(lines: seq<string>)
    ensures FinalOptions(ParseLines(EMPTY, lines)) ==
            JoinSpace(LastWords(ValuesOf(lines, "options")) + ItemsWords(ValuesOf(lines, "initrd")))
  {
    var options, initrds := ValuesOf(lines, "options"), ValuesOf(lines, "initrd");
    ParseMeaning(lines);
    ValuesAreWords(lines, "options");
    ValuesAreWords(lines, "initrd");
    OptionsJoined(ParseLines(EMPTY, lines), options, initrds);
    CommandLineJoined(LastWords(options), initrds);
  }

  lemma OptionsJoined(entry: Entry, options: seq<seq<string>>, initrds: seq<seq<string>>)
    requires entry.options == LastOf(options) && entry.initrds == Joined(initrds)
    ensures FinalOptions(entry) == CommandLine(JoinSpace(LastWords(options)), Joined(initrds))
  {
  }

  lemma ItemJoined(initrd: seq<string>)
    requires initrd != []
    ensures "initrd=" + Backslashes(JoinSpace(initrd)) == JoinSpace(ItemWords(initrd))
    ensures ItemWords(initrd) != []
  {
    BackslashesOfJoin(initrd);
    PrefixOfJoin(BackslashEach(initrd));
    ItemWordsShape(initrd);
  }

  lemma {:induction false} ItemsNotEmpty(initrds: seq<seq<string>>)
    requires AllValues(initrds)
    ensures forall i :: 0 <= i < |ItemsWords(initrds)| ==> ItemsWords(initrds)[i] != []
  {
    if initrds != [] {
      ItemsNotEmpty(initrds[..|initrds| - 1]);
      ItemWordsAreWords(initrds[|initrds| - 1]);
      var last := ItemWords(initrds[|initrds| - 1]);
      assert forall i :: 0 <= i < |last| ==> last[i] in last;
    }
  }

  lemma JoinNotEmpty(words: seq<string>)
    requires words != [] && words[0] != []
    ensures JoinSpace(words) != []
  {
  }

  lemma FirstNotEmpty(options: seq<string>, initrds: seq<seq<string>>)
    requires AllWords(options) && AllValues(initrds)
    ensures var words := options + ItemsWords(initrds);
            words != [] ==> words[0] != []
  {
    ItemsNotEmpty(initrds);
    if options != [] {
      assert options[0] in options;
    }
  }

  lemma AddInitrdJoined(words: seq<string>, initrd: seq<string>)
    requires initrd != [] && (words != [] ==> words[0] != [])
    ensures AddInitrd(JoinSpace(words), JoinSpace(initrd)) == JoinSpace(words + ItemWords(initrd))
  {
    ItemJoined(initrd);
    if words == [] {
      assert words + ItemWords(initrd) == ItemWords(initrd);
      FirstInitrd(JoinSpace(initrd));
    } else {
      JoinConcat(words, ItemWords(initrd));
      JoinNotEmpty(words);
      LaterInitrd(JoinSpace(words), JoinSpace(initrd));
    }
  }

  lemma FirstInitrd(initrd: string)
    ensures AddInitrd("", initrd) == "initrd=" + Backslashes(initrd)
  {
    assert "" + "" + "initrd=" == "initrd=";
  }

  lemma LaterInitrd(options: string, initrd: string)
    requires options != []
    ensures AddInitrd(options, initrd) == options + " " + ("initrd=" + Backslashes(initrd))
  {
    Associate(options + " ", "initrd=", Backslashes(initrd));
  }

  lemma {:induction false} CommandLineJoined(options: seq<string>, initrds: seq<seq<string>>)
    requires AllWords(options) && AllValues(initrds)
    ensures CommandLine(JoinSpace(options), Joined(initrds)) == JoinSpace(options + ItemsWords(initrds))
  {
    if initrds == [] {
      assert options + [] == options;
    } else {
      var front, last := initrds[..|initrds| - 1], initrds[|initrds| - 1];
      CommandLineJoined(options, front);
      assert Joined(initrds)[..|initrds| - 1] == Joined(front);
      Associate(options, ItemsWords(front), ItemWords(last));
      FirstNotEmpty(options, front);
      AddInitrdJoined(options + ItemsWords(front), last);
    }
  }

  // ---- Whole files ----

  lemma WordsStripCr(line: string)
    ensures Words(StripCr(line)) == Words(line)
  {
    TrimStripCr(line);
    WordsTrim(StripCr(line));
    WordsTrim(line);
  }

  lemma ValuesOfOne(line: string, key: string)
    ensures ValuesOf([line], key) == if Says(line) && Words(line)[0] == key then [Words(line)[1..]] else []
    ensures ValuesOf([StripCr(line)], key) == ValuesOf([line], key)
  {
    WordsStripCr(line);
    assert [line][..0] == [] && [StripCr(line)][..0] == [];
  }

  lemma ValuesFirst(piece: string, rest: string, key: string)
    requires '\n' !in piece
    ensures ValuesOf(Lines(piece + "\n" + rest), key) == ValuesOf([piece], key) + ValuesOf(Lines(rest), key)
  {
    LineSplits(piece, rest);
    ValuesOfOne(piece, key);
    ValuesConcat([StripCr(piece)], Lines(rest), key);
  }

  lemma ValuesLast(piece: string, key: string)
    requires '\n' !in piece
    ensures ValuesOf(Lines(piece), key) == ValuesOf([piece], key)
  {
    LastLine(piece);
    ValuesOfOne(piece, key);
  }

  /** The lines of a text give the same values as its pieces between newlines. */
  lemma {:induction false} ValuesOfText(pieces: seq<string>, key: string)
    requires pieces != [] && NoNewlines(pieces)
    ensures ValuesOf(Lines(JoinLines(pieces)), key) == ValuesOf(pieces, key)
  {
    if |pieces| == 1 {
      ValuesLast(pieces[0], key);
      assert pieces == [pieces[0]];
    } else {
      ValuesFirst(pieces[0], JoinLines(pieces[1..]), key);
      ValuesOfText(pieces[1..], key);
      ValuesConcat([pieces[0]], pieces[1..], key);
      assert [pieces[0]] + pieces[1..] == pieces;
    }
  }

  /** What an entry file says: the pieces between its newlines count, the last one included. */
  lemma EntryMeaning(pieces: seq<string>)
    requires pieces != [] && NoNewlines(pieces)
    ensures ParseEntry(JoinLines(pieces)) ==
            Entry(LastOf(ValuesOf(pieces, "linux")),
                  Joined(ValuesOf(pieces, "initrd")),
                  LastOf(ValuesOf(pieces, "options")))
  {
    ParseMeaning(Lines(JoinLines(pieces)));
    ValuesOfText(pieces, "linux");
    ValuesOfText(pieces, "initrd");
    ValuesOfText(pieces, "options");
  }

  lemma TwoWords(a: string, b: string)
    requires IsWord(a) && IsWord(b)
    ensures Words(a + " " + b) == [a, b]
  {
    WordsSplit(a, ' ', b);
    WordsOfWord(a);
    WordsOfWord(b);
  }

  lemma TwoLines(a: string, b: string)
    requires '\n' !in a && '\n' !in b && b != [] && b[|b| - 1] != '\r' && a != [] && a[|a| - 1] != '\r'
    ensures Lines(a + "\n" + (b + "\n")) == [a, b]
  {
    LineSplits(a, b + "\n" + "");
    LineSplits(b, "");
    LastLine("");
    assert b + "\n" + "" == b + "\n";
  }

  lemma TwoValues(a: string, b: string, key: string)
    ensures ValuesOf([a, b], key) ==
            (if Says(a) && Words(a)[0] == key then [Words(a)[1..]] else []) +
            (if Says(b) && Words(b)[0] == key then [Words(b)[1..]] else [])
  {
    assert [a, b] == [a] + [b];
    ValuesConcat([a], [b], key);
    ValuesOfOne(a, key);
    ValuesOfOne(b, key);
  }

  lemma KernelAndOptions(a: string, b: string, kernel: string, options: string)
    requires Words(a) == ["linux", kernel] && Words(b) == ["options", options]
    ensures ParseLines(EMPTY, [a, b]) == Entry(Some(kernel), [], Some(options))
  {
    assert |"linux"| == 5 && |"initrd"| == 6 && |"options"| == 7;
    TwoValues(a, b, "linux");
    TwoValues(a, b, "initrd");
    TwoValues(a, b, "options");
    ParseMeaning([a, b]);
  }

  const KERNEL_LINE := "linux" + " " + "/k"
  const OPTIONS_LINE := "options" + " " + "q"

  lemma KernelLine()
    ensures Words(KERNEL_LINE) == ["linux", "/k"] && '\n' !in KERNEL_LINE
  {
    TwoWords("linux", "/k");
  }

  lemma OptionsLine()
    ensures Words(OPTIONS_LINE) == ["options", "q"] && '\n' !in OPTIONS_LINE
  {
    TwoWords("options", "q");
  }

  lemma SmallEntry(a: string, b: string, kernel: string, options: string)
    requires '\n' !in a && '\n' !in b && b != [] && b[|b| - 1] != '\r' && a != [] && a[|a| - 1] != '\r'
    requires Words(a) == ["linux", kernel] && Words(b) == ["options", options]
    ensures ParseEntry(a + "\n" + (b + "\n")) == Entry(Some(kernel), [], Some(options))
  {
    TwoLines(a, b);
    KernelAndOptions(a, b, kernel, options);
  }

  /** An entry with a kernel and its options. */
  lemma EntryExample()
    ensures ParseEntry(KERNEL_LINE + "\n" + (OPTIONS_LINE + "\n")) ==
            Entry(Some("/k"), [], Some("q"))
  {
    KernelLine();
    OptionsLine();
    SmallEntry(KERNEL_LINE, OPTIONS_LINE, "/k", "q");
  }

  /** A command line with an image to load. */
  lemma CommandLineExample()
    ensures FinalOptions(Entry(Some("/k"), ["/a/b.img"], Some("quiet"))) == "quiet initrd=\\a\\b.img"
  {
    assert Backslashes("/a/b.img") == "\\a\\b.img";
    assert ["/a/b.img"][..0] == [];
    assert CommandLine("quiet", []) == "quiet";
  }

  // ---- Repeated options ----

  lemma {:induction false} NonEmptyFlatten(values: seq<seq<string>>)
    requires AllValues(values)
    ensures |Flatten(values)| >= |values|
  {
    if values != [] {
      NonEmptyFlatten(values[1..]);
    }
  }

  /** The Boot Loader Specification combines repeated `options` lines; this parser keeps the last
      one only. The two agree if and only if the file has at most one line with options. */
  lemma LastOptionsCombineIff(lines: seq<string>)
    ensures var values := ValuesOf(lines, "options");
            LastWords(values) == Flatten(values) <==> |values| <= 1
  {
    var values := ValuesOf(lines, "options");
    ValuesAreWords(lines, "options");
    if values != [] {
      var front, last := values[..|values| - 1], values[|values| - 1];
      assert values == front + [last];
      FlattenConcat(front, [last]);
      assert Flatten([last]) == last + Flatten([]);
      NonEmptyFlatten(front);
    }
  }
}
