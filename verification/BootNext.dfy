/** The bootnext files as a persistent queue: one call of `check_and_process_bootnext` as a function
    on the disk, and what any number of boots do. */
module BootNext {
  import opened Prelude
  import opened Text
  import opened Volumes

  const BOM := '\U{feff}'

  const ROOT_FLAG := "\\bootnext.txt"
  const EFI_FLAG := "\\EFI\\bootnext.txt"

  // ---- Parsing and writing back ----

  predicate StartsWithBom(s: string) {
    StartsWith(s, BOM)
  }

  function StripBom(content: string): string {
    if StartsWithBom(content) then content[1..] else content
  }

  /** Trim each line, then drop the empty ones. */
  function Clean(lines: seq<string>): seq<string> {
    if lines == [] then []
    else (if Trim(lines[0]) == [] then [] else [Trim(lines[0])]) + Clean(lines[1..])
  }

  function ParseQueue(content: string): seq<string> {
    Clean(Lines(StripBom(content)))
  }

  /** Each line followed by CR LF. */
  function Render(lines: seq<string>): string {
    if lines == [] then "" else lines[0] + "\r\n" + Render(lines[1..])
  }

  lemma {:induction false} RenderAppend(lines: seq<string>, line: string)
    ensures Render(lines + [line]) == Render(lines) + line + "\r\n"
  {
    if lines == [] {
      assert Render([line]) == line + "\r\n" + Render([]);
    } else {
      assert (lines + [line])[1..] == lines[1..] + [line];
      RenderAppend(lines[1..], line);
    }
  }

  /** A line as the parser yields it. */
  predicate IsLine(line: string) {
    line != [] && Trimmed(line) && '\n' !in line
  }

  lemma {:induction false} LinesHaveNoNewline(s: string)
    ensures forall line :: line in Lines(s) ==> '\n' !in line
    decreases |s|
  {
    var i := IndexOf(s, '\n');
    if i < |s| {
      LinesHaveNoNewline(s[i + 1..]);
    }
  }

  lemma {:induction false} CleanLines(lines: seq<string>)
    requires forall line :: line in lines ==> '\n' !in line
    ensures forall line :: line in Clean(lines) ==> IsLine(line)
  {
    if lines != [] {
      TrimFacts(lines[0]);
      assert lines[0] in lines;
      CleanLines(lines[1..]);
    }
  }

  lemma ParsedLines(content: string)
    ensures forall line :: line in ParseQueue(content) ==> IsLine(line)
  {
    LinesHaveNoNewline(StripBom(content));
    CleanLines(Lines(StripBom(content)));
  }

  lemma FindInFirstLine(line: string, rest: string)
    requires '\n' !in line
    ensures IndexOf(line + "\r\n" + rest, '\n') == |line| + 1
  {
    var s, n := line + "\r\n" + rest, |line| + 1;
    assert s[n] == '\n' && s[|line|] == '\r';
    assert forall i :: 0 <= i < |line| ==> s[i] == line[i];
    IndexOfUnique(s, '\n', n);
  }

  lemma FirstLine(line: string, rest: string)
    requires '\n' !in line
    ensures Lines(line + "\r\n" + rest) == [line] + Lines(rest)
  {
    var s := line + "\r\n" + rest;
    FindInFirstLine(line, rest);
    assert s[..|line| + 1] == line + "\r";
    assert StripCr(line + "\r") == line;
    assert s[|line| + 2..] == rest;
  }

  /** The line splitter undoes the writer. */
  lemma {:induction false} LinesOfRender(lines: seq<string>)
    requires forall line :: line in lines ==> IsLine(line)
    ensures Lines(Render(lines)) == lines
  {
    if lines != [] {
      assert lines[0] in lines;
      FirstLine(lines[0], Render(lines[1..]));
      LinesOfRender(lines[1..]);
    }
  }

  lemma {:induction false} CleanIdentity(lines: seq<string>)
    requires forall line :: line in lines ==> IsLine(line)
    ensures Clean(lines) == lines
  {
    if lines != [] {
      assert lines[0] in lines;
      TrimFacts(lines[0]);
      CleanIdentity(lines[1..]);
    }
  }

  /** Rewrite round trip: parsing what is written back yields exactly the remaining lines, if and
      only if the first of them does not start with a byte order mark. */
  lemma RewriteRoundTrip(lines: seq<string>)
    requires forall line :: line in lines ==> IsLine(line)
    ensures ParseQueue(Render(lines)) == lines <==> !(lines != [] && StartsWithBom(lines[0]))
  {
    LinesOfRender(lines);
    CleanIdentity(lines);
    if lines != [] {
      assert lines[0] in lines && IsLine(lines[0]);
      assert Render(lines)[0] == lines[0][0];
      if StartsWithBom(lines[0]) {
        BomIsLost(lines);
      }
    }
  }

  /** If it does, the mark is dropped from the line, which may then shrink further or vanish. */
  lemma BomIsLost(lines: seq<string>)
    requires lines != [] && StartsWithBom(lines[0])
    requires forall line :: line in lines ==> IsLine(line)
    ensures ParseQueue(Render(lines)) ==
            (if Trim(lines[0][1..]) == [] then [] else [Trim(lines[0][1..])]) + lines[1..]
    ensures ParseQueue(Render(lines)) != lines
  {
    var first, rest := lines[0][1..], Render(lines[1..]);
    var s := first + "\r\n" + rest;
    assert lines[0] in lines;
    assert StripBom(Render(lines)) == s;
    assert '\n' !in first;
    FirstLine(first, rest);
    LinesOfRender(lines[1..]);
    CleanIdentity(lines[1..]);
    TrimFacts(first);
  }

  // ---- What is in a queue, and how it is written ----

  /** The pieces that are not blank, without the whitespace around them, in order. */
  function NonBlank(pieces: seq<string>): seq<string> {
    if pieces == [] then []
    else (if AllSpaces(pieces[0]) then [] else [Trim(pieces[0])]) + NonBlank(pieces[1..])
  }

  lemma BlankIff(s: string)
    ensures Trim(s) == [] <==> AllSpaces(s)
  {
    var a, b := TrimParts(s);
    if AllSpaces(s) {
      TrimMeaning(s, [], []);
      assert s + [] + [] == s;
    }
    if Trim(s) == [] {
      assert s == a + b;
    }
  }

  lemma {:induction false} CleanConcat(a: seq<string>, b: seq<string>)
    ensures Clean(a + b) == Clean(a) + Clean(b)
  {
    if a == [] {
      assert a + b == b;
    } else {
      assert (a + b)[1..] == a[1..] + b;
      CleanConcat(a[1..], b);
    }
  }

  lemma CleanOne(piece: string)
    ensures Clean([StripCr(piece)]) == Clean([piece]) == NonBlank([piece])
  {
    TrimStripCr(piece);
    BlankIff(piece);
    assert [piece][1..] == [] && [StripCr(piece)][1..] == [];
  }

  lemma CleanFirst(piece: string, rest: string)
    requires '\n' !in piece
    ensures Clean(Lines(piece + "\n" + rest)) == NonBlank([piece]) + Clean(Lines(rest))
  {
    LineSplits(piece, rest);
    CleanOne(piece);
    CleanConcat([StripCr(piece)], Lines(rest));
  }

  lemma CleanLast(piece: string)
    requires '\n' !in piece
    ensures Clean(Lines(piece)) == NonBlank([piece])
  {
    LastLine(piece);
    CleanOne(piece);
    if piece == [] {
      assert AllSpaces(piece);
      assert NonBlank([piece]) == [] + NonBlank([]);
    }
  }

  lemma {:induction false} CleanLinesMeaning(pieces: seq<string>)
    requires pieces != [] && NoNewlines(pieces)
    ensures Clean(Lines(JoinLines(pieces))) == NonBlank(pieces)
  {
    if |pieces| == 1 {
      CleanLast(pieces[0]);
      assert pieces == [pieces[0]];
    } else {
      CleanFirst(pieces[0], JoinLines(pieces[1..]));
      CleanLinesMeaning(pieces[1..]);
      assert [pieces[0]][1..] == [];
    }
  }

  /** The lines of a queue are the pieces between the newlines of the text, without the whitespace
      around them, the last piece included and the blank ones left out; one leading byte order mark
      does not count. */
  lemma QueueMeaning(pieces: seq<string>)
    requires pieces != [] && NoNewlines(pieces)
    ensures ParseQueue("\U{feff}" + JoinLines(pieces)) == NonBlank(pieces)
    ensures JoinLines(pieces) == [] || JoinLines(pieces)[0] != '\U{feff}' ==>
              ParseQueue(JoinLines(pieces)) == NonBlank(pieces)
  {
    CleanLinesMeaning(pieces);
    assert ("\U{feff}" + JoinLines(pieces))[1..] == JoinLines(pieces);
  }

  /** A queue is written as its lines, each with a carriage return and a newline after it. */
  lemma {:induction false} RenderMeaning(lines: seq<string>)
    requires NoNewlines(lines)
    ensures Render(lines) == JoinLines(WithReturns(lines) + [""])
    ensures |WithReturns(lines)| == |lines|
    ensures forall i :: 0 <= i < |lines| ==> WithReturns(lines)[i] == lines[i] + "\r"
  {
    if lines != [] {
      RenderMeaning(lines[1..]);
      assert (WithReturns(lines) + [""])[1..] == WithReturns(lines[1..]) + [""];
      assert lines[0] + "\r\n" + Render(lines[1..]) == lines[0] + "\r" + "\n" + Render(lines[1..]);
    }
  }

  function WithReturns(lines: seq<string>): seq<string> {
    if lines == [] then [] else [lines[0] + "\r"] + WithReturns(lines[1..])
  }

  // ---- One boot ----

  datatype Pop = Untouched | Processed(volume: Volume, target: Option<string>)

  /** Handle one flag file: the first line goes, and what is left is written back. */
  function PopFlag(v: Volume, name: string): Pop {
    if !OpensForWriting(v, name) then Untouched
    else if !v.files[name].Text? then Processed(v, None)
    else
      var lines := ParseQueue(v.files[name].text);
      if lines == [] then Processed(v.(files := v.files - {name}), None)
      else if |lines| == 1 then Processed(v.(files := v.files - {name}), Some(lines[0]))
      else Processed(v.(files := v.files[name := Node.Text(Render(lines[1..]))]), Some(lines[0]))
  }

  function PopVolume(v: Volume): Pop {
    if !v.opens then Untouched
    else
      var pop := PopFlag(v, ROOT_FLAG);
      if pop.Processed? then pop else PopFlag(v, EFI_FLAG)
  }

  /** The disk after one call, and the line it popped. */
  function PopDisk(disk: seq<Volume>): (seq<Volume>, Option<string>) {
    if disk == [] then ([], None)
    else
      match PopVolume(disk[0])
      case Processed(v, target) => ([v] + disk[1..], target)
      case Untouched => var (rest, target) := PopDisk(disk[1..]); ([disk[0]] + rest, target)
  }

  /** The disk before volume `v` is passed over by the search for a flag file. */
  ghost predicate Passed(disk: seq<Volume>, v: nat)
    requires v <= |disk|
  {
    PopDisk(disk) == (disk[..v] + PopDisk(disk[v..]).0, PopDisk(disk[v..]).1)
  }

  lemma PassedNone(disk: seq<Volume>)
    ensures Passed(disk, 0)
  {
    assert disk[0..] == disk && disk[..0] == [];
    assert [] + PopDisk(disk).0 == PopDisk(disk).0;
  }

  lemma PassOne(disk: seq<Volume>, v: nat)
    requires v < |disk| && Passed(disk, v) && PopVolume(disk[v]).Untouched?
    ensures Passed(disk, v + 1)
  {
    assert disk[v..][1..] == disk[v + 1..];
    assert disk[..v + 1] == disk[..v] + [disk[v]];
    Associate(disk[..v], [disk[v]], PopDisk(disk[v + 1..]).0);
  }

  lemma StopAt(disk: seq<Volume>, v: nat)
    requires v < |disk| && Passed(disk, v) && PopVolume(disk[v]).Processed?
    ensures PopDisk(disk) == (disk[v := PopVolume(disk[v]).volume], PopVolume(disk[v]).target)
  {
    var pop, tail := PopVolume(disk[v]), disk[v..];
    assert tail[0] == disk[v];
    assert PopDisk(tail) == ([pop.volume] + tail[1..], pop.target);
    Splice(disk, v, pop.volume);
  }

  lemma Splice<T>(s: seq<T>, i: nat, x: T)
    requires i < |s|
    ensures s[..i] + ([x] + s[i..][1..]) == s[i := x]
  {
  }

  // ---- One boot, read off the disk ----

  /** The path leads to something that can be opened for reading and writing and is no directory. */
  ghost predicate OpensAsFile(v: Volume, path: string) {
    && path in v.files && path !in v.readOnly
    && v.files[path] != Directory && forall status: Status :: v.files[path] != Refused(status)
  }

  /** What is done to one flag file: if it does not open it is passed over; if it is not readable text
      nothing changes; otherwise its first line is popped, and it holds the others afterwards, or is
      gone if there is none. */
  lemma PopFlagMeaning(v: Volume, name: string)
    ensures !OpensAsFile(v, name) ==> PopFlag(v, name) == Untouched
    ensures OpensAsFile(v, name) && !v.files[name].Text? ==> PopFlag(v, name) == Processed(v, None)
    ensures OpensAsFile(v, name) && v.files[name].Text? ==>
              var lines := ParseQueue(v.files[name].text);
              PopFlag(v, name) ==
              Processed(
                v.(files := if |lines| <= 1 then map path | path in v.files && path != name :: v.files[path]
                            else v.files[name := Node.Text(Render(lines[1..]))]),
                if lines == [] then None else Some(lines[0]))
  {
    assert OpensAsFile(v, name) <==> OpensForWriting(v, name);
    assert v.files - {name} == map path | path in v.files && path != name :: v.files[path];
  }

  /** A file with one line that no newline ends: the line is popped and the file is gone. */
  lemma PopUnterminated(v: Volume, name: string)
    requires OpensAsFile(v, name) && v.files[name] == Node.Text("a")
    ensures PopFlag(v, name) == Processed(v.(files := v.files - {name}), Some("a"))
  {
    QueueMeaning(["a"]);
    TrimFacts("a");
    assert NonBlank(["a"]) == [Trim("a")] + NonBlank([]);
  }

  /** Does any flag file of the volume open? */
  ghost predicate HasFlag(v: Volume) {
    v.opens && (OpensAsFile(v, "\\bootnext.txt") || OpensAsFile(v, "\\EFI\\bootnext.txt"))
  }

  /** One boot pops from one file: that of the first volume that has one, the one in its root if both
      are there. */
  lemma {:induction false} PopDiskMeaning(disk: seq<Volume>, i: nat)
    requires i < |disk| && HasFlag(disk[i])
    requires forall j :: 0 <= j < i ==> !HasFlag(disk[j])
    ensures var name :=
              if OpensAsFile(disk[i], "\\bootnext.txt") then "\\bootnext.txt" else "\\EFI\\bootnext.txt";
            var pop := PopFlag(disk[i], name);
            pop.Processed? && PopDisk(disk) == (disk[i := pop.volume], pop.target)
  {
    PopVolumeMeaning(disk[i]);
    var after := PopVolume(disk[i]).volume;
    if i > 0 {
      var tail := disk[1..];
      PopVolumeMeaning(disk[0]);
      assert tail[i - 1] == disk[i];
      PopDiskMeaning(tail, i - 1);
      assert [disk[0]] + tail[i - 1 := after] == disk[i := after];
    } else {
      assert [after] + disk[1..] == disk[0 := after];
    }
  }

  lemma PopVolumeMeaning(v: Volume)
    ensures !HasFlag(v) ==> PopVolume(v) == Untouched
    ensures HasFlag(v) ==>
              PopVolume(v) ==
              PopFlag(v, if OpensAsFile(v, "\\bootnext.txt") then "\\bootnext.txt" else "\\EFI\\bootnext.txt")
    ensures HasFlag(v) ==> PopVolume(v).Processed?
  {
    PopFlagMeaning(v, "\\bootnext.txt");
    PopFlagMeaning(v, "\\EFI\\bootnext.txt");
  }

  /** If no volume has one, nothing happens. */
  lemma {:induction false} PopDiskNone(disk: seq<Volume>)
    requires forall j :: 0 <= j < |disk| ==> !HasFlag(disk[j])
    ensures PopDisk(disk) == (disk, None)
  {
    if disk != [] {
      PopVolumeMeaning(disk[0]);
      PopDiskNone(disk[1..]);
      assert [disk[0]] + disk[1..] == disk;
    }
  }

  // ---- The queue that the files stand for ----

  /** A flag file: its lines, or a file that cannot be read as text. */
  datatype QueueFile = Queue(lines: seq<string>) | Blocked

  function FlagQueue(v: Volume, name: string): seq<QueueFile> {
    if !OpensForWriting(v, name) then []
    else if v.files[name].Text? then [Queue(ParseQueue(v.files[name].text))]
    else [Blocked]
  }

  function VolumeQueues(v: Volume): seq<QueueFile> {
    if v.opens then FlagQueue(v, ROOT_FLAG) + FlagQueue(v, EFI_FLAG) else []
  }

  function DiskQueues(disk: seq<Volume>): seq<QueueFile> {
    if disk == [] then [] else VolumeQueues(disk[0]) + DiskQueues(disk[1..])
  }

  /** What the next boot reads of lines that are written back. */
  function Reparse(lines: seq<string>): seq<string> {
    ParseQueue(Render(lines))
  }

  /** Taking the head of such a queue. */
  function PopQueues(files: seq<QueueFile>): (seq<QueueFile>, Option<string>) {
    if files == [] || files[0].Blocked? then (files, None)
    else
      var lines := files[0].lines;
      if lines == [] then (files[1..], None)
      else if |lines| == 1 then (files[1..], Some(lines[0]))
      else ([Queue(Reparse(lines[1..]))] + files[1..], Some(lines[0]))
  }

  lemma PopFlagRefines(v: Volume, name: string)
    ensures PopFlag(v, name).Untouched? <==> FlagQueue(v, name) == []
    ensures var pop := PopFlag(v, name);
            pop.Processed? ==>
              && FlagQueue(pop.volume, name) == PopQueues(FlagQueue(v, name)).0
              && pop.target == PopQueues(FlagQueue(v, name)).1
  {
  }

  lemma PopFlagFrame(v: Volume, name: string, other: string)
    requires PopFlag(v, name).Processed? && other != name
    ensures PopFlag(v, name).volume.opens == v.opens
    ensures FlagQueue(PopFlag(v, name).volume, other) == FlagQueue(v, other)
  {
  }

  lemma PopQueuesAppend(a: seq<QueueFile>, b: seq<QueueFile>)
    requires a != []
    ensures PopQueues(a + b) == (PopQueues(a).0 + b, PopQueues(a).1)
  {
    assert (a + b)[0] == a[0];
    assert (a + b)[1..] == a[1..] + b;
    if a[0].Queue? && |a[0].lines| > 1 {
      var head := [Queue(Reparse(a[0].lines[1..]))];
      assert head + (a[1..] + b) == head + a[1..] + b;
    }
  }

  lemma PopVolumeRefines(v: Volume)
    ensures PopVolume(v).Untouched? <==> VolumeQueues(v) == []
    ensures var pop := PopVolume(v);
            pop.Processed? ==>
              && VolumeQueues(pop.volume) == PopQueues(VolumeQueues(v)).0
              && pop.target == PopQueues(VolumeQueues(v)).1
  {
    if v.opens {
      var root, efi := FlagQueue(v, ROOT_FLAG), FlagQueue(v, EFI_FLAG);
      PopFlagRefines(v, ROOT_FLAG);
      PopFlagRefines(v, EFI_FLAG);
      assert ROOT_FLAG != EFI_FLAG by { assert |ROOT_FLAG| != |EFI_FLAG|; }
      if root != [] {
        PopQueuesAppend(root, efi);
        PopFlagFrame(v, ROOT_FLAG, EFI_FLAG);
      } else {
        assert root + efi == efi;
        var pop := PopFlag(v, EFI_FLAG);
        if pop.Processed? {
          PopFlagFrame(v, EFI_FLAG, ROOT_FLAG);
          assert FlagQueue(pop.volume, ROOT_FLAG) + FlagQueue(pop.volume, EFI_FLAG) == FlagQueue(pop.volume, EFI_FLAG);
        }
      }
    }
  }

  /** One boot takes exactly the head of the queue that the flag files of all volumes form, in
      volume order and the root file before the one under \EFI. */
  lemma {:induction false} PopDiskRefines(disk: seq<Volume>)
    ensures DiskQueues(PopDisk(disk).0) == PopQueues(DiskQueues(disk)).0
    ensures PopDisk(disk).1 == PopQueues(DiskQueues(disk)).1
  {
    if disk != [] {
      var first, rest := VolumeQueues(disk[0]), DiskQueues(disk[1..]);
      PopVolumeRefines(disk[0]);
      match PopVolume(disk[0])
      case Processed(v, target) =>
        PopQueuesAppend(first, rest);
        assert ([v] + disk[1..])[1..] == disk[1..];
      case Untouched =>
        assert first + rest == rest;
        PopDiskRefines(disk[1..]);
        var rest' := PopDisk(disk[1..]).0;
        assert ([disk[0]] + rest')[1..] == rest';
        assert first + DiskQueues(rest') == DiskQueues(rest');
    }
  }

  // ---- Many boots ----

  ghost function DiskAfter(disk: seq<Volume>, n: nat): seq<Volume>
    decreases n
  {
    if n == 0 then disk else DiskAfter(PopDisk(disk).0, n - 1)
  }

  ghost function Target(target: Option<string>): seq<string> {
    if target.Some? then [target.value] else []
  }

  /** The lines that the first `n` boots pop, in order. */
  ghost function Popped(disk: seq<Volume>, n: nat): seq<string>
    decreases n
  {
    if n == 0 then [] else Target(PopDisk(disk).1) + Popped(PopDisk(disk).0, n - 1)
  }

  ghost function QueuesAfter(files: seq<QueueFile>, n: nat): seq<QueueFile>
    decreases n
  {
    if n == 0 then files else QueuesAfter(PopQueues(files).0, n - 1)
  }

  ghost function QueuesPopped(files: seq<QueueFile>, n: nat): seq<string>
    decreases n
  {
    if n == 0 then [] else Target(PopQueues(files).1) + QueuesPopped(PopQueues(files).0, n - 1)
  }

  lemma NextBoot(disk: seq<Volume>, n: nat)
    requires n > 0
    ensures DiskAfter(disk, n) == DiskAfter(PopDisk(disk).0, n - 1)
    ensures Popped(disk, n) == Target(PopDisk(disk).1) + Popped(PopDisk(disk).0, n - 1)
  {
  }

  /** The disk goes through the states of the queue. */
  lemma {:induction false} DiskFollowsQueues(disk: seq<Volume>, n: nat)
    ensures DiskQueues(DiskAfter(disk, n)) == QueuesAfter(DiskQueues(disk), n)
    ensures Popped(disk, n) == QueuesPopped(DiskQueues(disk), n)
    decreases n
  {
    if n > 0 {
      PopDiskRefines(disk);
      DiskFollowsQueues(PopDisk(disk).0, n - 1);
    }
  }

  ghost predicate AllReadable(files: seq<QueueFile>) {
    forall f :: f in files ==> f.Queue? && forall line :: line in f.lines ==> IsLine(line)
  }

  /** No line but the first of a file starts with a byte order mark. */
  ghost predicate MarkFreeFile(f: QueueFile) {
    f.Queue? ==> forall i :: 1 <= i < |f.lines| ==> !StartsWithBom(f.lines[i])
  }

  ghost predicate MarkFree(files: seq<QueueFile>) {
    forall f :: f in files ==> MarkFreeFile(f)
  }

  /** The lines still to be popped. */
  ghost function Pending(files: seq<QueueFile>): seq<string> {
    if files == [] then []
    else (if files[0].Queue? then files[0].lines else []) + Pending(files[1..])
  }

  /** Total lines plus the number of files without any. */
  ghost function Work(files: seq<QueueFile>): nat {
    if files == [] then 0
    else (if files[0].Queue? && files[0].lines != [] then |files[0].lines| else 1) + Work(files[1..])
  }

  lemma WorkZero(files: seq<QueueFile>)
    ensures Work(files) == 0 <==> files == []
  {
  }

  lemma ReparseFacts(lines: seq<string>)
    requires forall line :: line in lines ==> IsLine(line)
    ensures forall line :: line in Reparse(lines) ==> IsLine(line)
    ensures lines == [] || !StartsWithBom(lines[0]) ==> Reparse(lines) == lines
    ensures |Reparse(lines)| <= |lines|
    ensures Chars(Reparse(lines)) + (if lines != [] && StartsWithBom(lines[0]) then 1 else 0) <= Chars(lines)
  {
    ParsedLines(Render(lines));
    RewriteRoundTrip(lines);
    if lines != [] && StartsWithBom(lines[0]) {
      BomIsLost(lines);
      var first := lines[0][1..];
      TrimFacts(first);
      var head := if Trim(first) == [] then [] else [Trim(first)];
      CharsConcat(head, lines[1..]);
      assert head + lines[1..] == Reparse(lines);
    }
  }

  /** The total length of some lines. */
  ghost function Chars(lines: seq<string>): nat {
    if lines == [] then 0 else |lines[0]| + Chars(lines[1..])
  }

  lemma {:induction false} CharsConcat(a: seq<string>, b: seq<string>)
    ensures Chars(a + b) == Chars(a) + Chars(b)
  {
    if a == [] {
      assert a + b == b;
    } else {
      assert (a + b)[1..] == a[1..] + b;
      CharsConcat(a[1..], b);
    }
  }

  lemma PopKeepsReadable(files: seq<QueueFile>)
    requires AllReadable(files)
    ensures AllReadable(PopQueues(files).0)
    ensures files != [] ==> Work(PopQueues(files).0) < Work(files)
  {
    if files != [] && |files[0].lines| > 1 {
      assert files[0] in files;
      var tail := files[0].lines[1..];
      assert forall line :: line in tail ==> line in files[0].lines;
      ReparseFacts(tail);
      var files' := [Queue(Reparse(tail))] + files[1..];
      assert files'[1..] == files[1..];
      assert forall f :: f in files' ==> f == Queue(Reparse(tail)) || f in files;
    }
  }

  lemma PopMarkFree(files: seq<QueueFile>)
    requires AllReadable(files) && MarkFree(files)
    ensures MarkFree(PopQueues(files).0)
    ensures Target(PopQueues(files).1) + Pending(PopQueues(files).0) == Pending(files)
    ensures Work(PopQueues(files).0) == if Work(files) == 0 then 0 else Work(files) - 1
  {
    WorkZero(files);
    if files != [] {
      var lines := files[0].lines;
      assert files[0] in files && MarkFreeFile(files[0]);
      if |lines| > 1 {
        TailKept(lines);
        var files' := [Queue(lines[1..])] + files[1..];
        assert files'[1..] == files[1..];
        assert forall f :: f in files' ==> f == Queue(lines[1..]) || f in files;
      }
    }
  }

  lemma TailKept(lines: seq<string>)
    requires |lines| > 1 && MarkFreeFile(Queue(lines))
    requires forall line :: line in lines ==> IsLine(line)
    ensures Reparse(lines[1..]) == lines[1..]
    ensures MarkFreeFile(Queue(lines[1..]))
  {
    var tail := lines[1..];
    assert forall line :: line in tail ==> line in lines;
    assert tail[0] == lines[1];
    ReparseFacts(tail);
    assert forall i :: 1 <= i < |tail| ==> tail[i] == lines[i + 1];
  }

  lemma {:induction false} QueuesAreFifo(files: seq<QueueFile>, n: nat)
    requires AllReadable(files) && MarkFree(files)
    ensures QueuesPopped(files, n) + Pending(QueuesAfter(files, n)) == Pending(files)
    ensures Work(QueuesAfter(files, n)) == if n <= Work(files) then Work(files) - n else 0
    decreases n
  {
    if n == 0 {
      assert [] + Pending(files) == Pending(files);
    } else {
      var files' := PopQueues(files).0;
      PopKeepsReadable(files);
      PopMarkFree(files);
      QueuesAreFifo(files', n - 1);
      Associate(Target(PopQueues(files).1), QueuesPopped(files', n - 1), Pending(QueuesAfter(files', n - 1)));
    }
  }

  lemma {:induction false} DiskQueuesReadable(disk: seq<Volume>)
    ensures forall f :: f in DiskQueues(disk) && f.Queue? ==> forall line :: line in f.lines ==> IsLine(line)
  {
    if disk != [] {
      DiskQueuesReadable(disk[1..]);
      forall f, line | f in VolumeQueues(disk[0]) && f.Queue? && line in f.lines ensures IsLine(line) {
        var v := disk[0];
        if f in FlagQueue(v, ROOT_FLAG) {
          ParsedLines(v.files[ROOT_FLAG].text);
        } else {
          ParsedLines(v.files[EFI_FLAG].text);
        }
      }
    }
  }

  // ---- What a misplaced mark does ----

  /** Does the next pop bring a marked line to the front? */
  ghost predicate MarkComesFirst(files: seq<QueueFile>)
    requires files != [] && files[0].Queue?
  {
    |files[0].lines| > 1 && StartsWithBom(files[0].lines[1])
  }

  /** A pop never adds text, and loses some when it brings a marked line to the front. */
  lemma PopChars(files: seq<QueueFile>)
    requires AllReadable(files) && files != []
    ensures var lines := files[0].lines;
            Chars(Target(PopQueues(files).1)) + Chars(Pending(PopQueues(files).0)) +
            (if MarkComesFirst(files) then 1 else 0) <= Chars(Pending(files))
  {
    var lines := files[0].lines;
    assert files[0] in files;
    CharsConcat(lines, Pending(files[1..]));
    if |lines| > 1 {
      var tail := lines[1..];
      assert forall line :: line in tail ==> line in lines;
      ReparseFacts(tail);
      CharsConcat(Reparse(tail), Pending(files[1..]));
      assert ([Queue(Reparse(tail))] + files[1..])[1..] == files[1..];
      assert Chars([lines[0]]) == |lines[0]| + Chars([]);
    }
  }

  /** A pop that brings no marked line to the front leaves the marked lines where they are. */
  lemma PopKeepsMarks(files: seq<QueueFile>)
    requires AllReadable(files) && files != [] && !MarkFree(files)
    requires !MarkComesFirst(files)
    ensures !MarkFree(PopQueues(files).0)
  {
    var f :| f in files && !MarkFreeFile(f);
    var files' := PopQueues(files).0;
    var lines := files[0].lines;
    assert files[0] in files;
    if f != files[0] {
      assert f in files[1..];
      assert f in files';
    } else {
      var i :| 1 <= i < |lines| && StartsWithBom(lines[i]);
      var tail := lines[1..];
      assert forall line :: line in tail ==> line in lines;
      ReparseFacts(tail);
      assert StartsWithBom(tail[i - 1]) && files'[0] == Queue(tail);
      assert !MarkFreeFile(files'[0]);
    }
  }

  /** The text that is popped or left after `n` boots. */
  ghost function TextAfter(files: seq<QueueFile>, n: nat): nat {
    Chars(QueuesPopped(files, n)) + Chars(Pending(QueuesAfter(files, n)))
  }

  lemma TextStep(files: seq<QueueFile>, n: nat)
    requires n > 0
    ensures TextAfter(files, n) == Chars(Target(PopQueues(files).1)) + TextAfter(PopQueues(files).0, n - 1)
  {
    CharsConcat(Target(PopQueues(files).1), QueuesPopped(PopQueues(files).0, n - 1));
  }

  /** After `n` boots, some of the text has been lost. */
  ghost predicate DamagedAt(files: seq<QueueFile>, n: nat) {
    TextAfter(files, n) < Chars(Pending(files))
  }

  lemma {:induction false} TextNeverGrows(files: seq<QueueFile>, n: nat)
    requires AllReadable(files)
    ensures TextAfter(files, n) <= Chars(Pending(files))
    decreases n
  {
    if n > 0 {
      TextStep(files, n);
      PopKeepsReadable(files);
      TextNeverGrows(PopQueues(files).0, n - 1);
      if files != [] {
        PopChars(files);
      }
    }
  }

  lemma PopDamages(files: seq<QueueFile>, n: nat)
    requires AllReadable(files) && files != [] && n > 0
    requires MarkComesFirst(files) || DamagedAt(PopQueues(files).0, n - 1)
    ensures DamagedAt(files, n)
  {
    TextStep(files, n);
    PopChars(files);
    PopKeepsReadable(files);
    TextNeverGrows(PopQueues(files).0, n - 1);
  }

  lemma SomeMark(files: seq<QueueFile>)
    requires AllReadable(files) && !MarkFree(files)
    ensures files != [] && files[0].Queue? && Work(files) > 0
  {
    var f :| f in files && !MarkFreeFile(f);
    assert files[0] in files;
  }

  lemma MarkNextTime(files: seq<QueueFile>)
    requires AllReadable(files) && !MarkFree(files)
    requires files != [] && files[0].Queue? && !MarkComesFirst(files)
    ensures AllReadable(PopQueues(files).0) && !MarkFree(PopQueues(files).0)
    ensures Work(PopQueues(files).0) < Work(files)
  {
    PopKeepsReadable(files);
    PopKeepsMarks(files);
  }

  /** Once the queue is empty, part of every misplaced marked line is gone. */
  lemma {:induction false} MarkedLineIsDamaged(files: seq<QueueFile>, n: nat)
    requires AllReadable(files) && !MarkFree(files) && n >= Work(files)
    ensures DamagedAt(files, n)
    decreases n
  {
    SomeMark(files);
    if !MarkComesFirst(files) {
      MarkNextTime(files);
      MarkedLineIsDamaged(PopQueues(files).0, n - 1);
    }
    PopDamages(files, n);
  }

  // ---- The files ahead of an unreadable one ----

  /** The files before the first that is not readable text. */
  ghost function Ahead(files: seq<QueueFile>): seq<QueueFile> {
    if files == [] || files[0].Blocked? then [] else [files[0]] + Ahead(files[1..])
  }

  /** That file and all after it. */
  ghost function Behind(files: seq<QueueFile>): seq<QueueFile> {
    if files == [] || files[0].Blocked? then files else Behind(files[1..])
  }

  /** No boot gets past the first of these. */
  ghost predicate Halts(files: seq<QueueFile>) {
    files == [] || files[0].Blocked?
  }

  lemma {:induction false} AheadBehind(files: seq<QueueFile>)
    ensures files == Ahead(files) + Behind(files)
    ensures Halts(Behind(files)) && Blocked !in Ahead(files)
    ensures forall f :: f in Ahead(files) ==> f in files
  {
    if files != [] && !files[0].Blocked? {
      AheadBehind(files[1..]);
      assert files == [files[0]] + files[1..];
      Associate([files[0]], Ahead(files[1..]), Behind(files[1..]));
    }
  }

  /** The boots take from the files ahead, and leave those behind alone. */
  lemma {:induction false} BootsTakeAhead(a: seq<QueueFile>, b: seq<QueueFile>, n: nat)
    requires Halts(b)
    ensures QueuesAfter(a + b, n) == QueuesAfter(a, n) + b
    ensures QueuesPopped(a + b, n) == QueuesPopped(a, n)
    decreases n
  {
    if n > 0 {
      if a == [] {
        assert a + b == b;
        BootsTakeAhead(a, b, n - 1);
      } else {
        PopQueuesAppend(a, b);
        BootsTakeAhead(PopQueues(a).0, b, n - 1);
      }
    }
  }

  lemma {:induction false} PendingConcat(a: seq<QueueFile>, b: seq<QueueFile>)
    ensures Pending(a + b) == Pending(a) + Pending(b)
  {
    if a == [] {
      assert a + b == b;
    } else {
      assert (a + b)[1..] == a[1..] + b;
      PendingConcat(a[1..], b);
      Associate(if a[0].Queue? then a[0].lines else [], Pending(a[1..]), Pending(b));
    }
  }

  ghost function DiskAhead(disk: seq<Volume>): seq<QueueFile> {
    Ahead(DiskQueues(disk))
  }

  ghost function DiskBehind(disk: seq<Volume>): seq<QueueFile> {
    Behind(DiskQueues(disk))
  }

  /** The disk goes through the states of the queue that the files ahead form. */
  lemma DiskFollowsAhead(disk: seq<Volume>, n: nat)
    ensures DiskQueues(DiskAfter(disk, n)) == QueuesAfter(DiskAhead(disk), n) + DiskBehind(disk)
    ensures Popped(disk, n) == QueuesPopped(DiskAhead(disk), n)
    ensures AllReadable(DiskAhead(disk))
  {
    AheadBehind(DiskQueues(disk));
    DiskFollowsQueues(disk, n);
    BootsTakeAhead(DiskAhead(disk), DiskBehind(disk), n);
    DiskQueuesReadable(disk);
    assert forall f :: f in DiskAhead(disk) ==> f != Blocked;
  }

  /** What has been popped in `n` boots, followed by what is still on the disk, is what was there
      at first. */
  ghost predicate FifoAt(disk: seq<Volume>, n: nat) {
    Popped(disk, n) + Pending(DiskQueues(DiskAfter(disk, n))) == Pending(DiskQueues(disk))
  }

  lemma FifoAtAhead(disk: seq<Volume>, n: nat)
    ensures var files := DiskAhead(disk);
            FifoAt(disk, n) <==> QueuesPopped(files, n) + Pending(QueuesAfter(files, n)) == Pending(files)
  {
    var files, behind := DiskAhead(disk), DiskBehind(disk);
    AheadBehind(DiskQueues(disk));
    DiskFollowsAhead(disk, n);
    PendingConcat(files, behind);
    PendingConcat(QueuesAfter(files, n), behind);
    Associate(QueuesPopped(files, n), Pending(QueuesAfter(files, n)), Pending(behind));
    SameFront(QueuesPopped(files, n) + Pending(QueuesAfter(files, n)), Pending(files), Pending(behind));
  }

  lemma SameFront<T>(a: seq<T>, b: seq<T>, tail: seq<T>)
    ensures a + tail == b + tail <==> a == b
  {
    if a + tail == b + tail {
      assert |a + tail| == |b + tail|;
      assert a == (a + tail)[..|a|] && b == (b + tail)[..|b|];
    }
  }

  /** The bootnext files are a first-in-first-out queue over any number of boots, if and only if,
      ahead of the first file that is not readable text, no line but the first of a file starts
      with a byte order mark. */
  lemma BootsAreFifoIff(disk: seq<Volume>)
    ensures (forall n: nat :: FifoAt(disk, n)) <==> MarkFree(DiskAhead(disk))
  {
    var files := DiskAhead(disk);
    DiskFollowsAhead(disk, 0);
    if MarkFree(files) {
      forall n: nat ensures FifoAt(disk, n) {
        FifoAtAhead(disk, n);
        QueuesAreFifo(files, n);
      }
    } else {
      var n := Work(files);
      FifoAtAhead(disk, n);
      MarkedLineIsDamaged(files, n);
      CharsConcat(QueuesPopped(files, n), Pending(QueuesAfter(files, n)));
      assert !FifoAt(disk, n);
    }
  }

  /** Whatever the lines are, the files ahead are gone after at most as many boots as they have
      lines, a file without lines counting as one. */
  lemma {:induction false} QueueDrains(files: seq<QueueFile>, n: nat)
    requires AllReadable(files) && n >= Work(files)
    ensures QueuesAfter(files, n) == []
    decreases n
  {
    WorkZero(files);
    if n > 0 {
      PopKeepsReadable(files);
      QueueDrains(PopQueues(files).0, n - 1);
    }
  }

  lemma BootsDrainTheQueue(disk: seq<Volume>, n: nat)
    requires n >= Work(DiskAhead(disk))
    ensures DiskQueues(DiskAfter(disk, n)) == DiskBehind(disk)
  {
    DiskFollowsAhead(disk, n);
    QueueDrains(DiskAhead(disk), n);
  }

  /** By then every line ahead has been popped, once and in order, if and only if none of them is
      marked out of place. */
  lemma EveryLinePoppedIff(disk: seq<Volume>)
    ensures Popped(disk, Work(DiskAhead(disk))) == Pending(DiskAhead(disk)) <==> MarkFree(DiskAhead(disk))
  {
    var files, n := DiskAhead(disk), Work(DiskAhead(disk));
    DiskFollowsAhead(disk, n);
    QueueDrains(files, n);
    assert QueuesPopped(files, n) + [] == QueuesPopped(files, n);
    if MarkFree(files) {
      QueuesAreFifo(files, n);
    } else {
      MarkedLineIsDamaged(files, n);
    }
  }

  /** And then it takes no fewer boots. */
  lemma BootsEmptyTheQueue(disk: seq<Volume>, n: nat)
    requires MarkFree(DiskAhead(disk))
    ensures DiskQueues(DiskAfter(disk, n)) == DiskBehind(disk) <==> n >= Work(DiskAhead(disk))
  {
    var files := DiskAhead(disk);
    DiskFollowsAhead(disk, n);
    QueuesAreFifo(files, n);
    WorkZero(QueuesAfter(files, n));
    SameFront(QueuesAfter(files, n), [], DiskBehind(disk));
    assert [] + DiskBehind(disk) == DiskBehind(disk);
  }

  /** So, even if every boot of a popped line fails, no line is popped more often than it occurs. */
  lemma EachLinePoppedAtMostOnce(disk: seq<Volume>, n: nat)
    requires MarkFree(DiskAhead(disk))
    ensures Popped(disk, n) <= Pending(DiskAhead(disk))
    ensures multiset(Popped(disk, n)) <= multiset(Pending(DiskAhead(disk)))
  {
    var files := DiskAhead(disk);
    DiskFollowsAhead(disk, n);
    QueuesAreFifo(files, n);
    assert Pending(files) == Popped(disk, n) + Pending(QueuesAfter(files, n));
  }

  /** With marks out of place a line may be popped in a shortened form, but there are never more
      pops than lines. */
  lemma NoMorePopsThanLines(disk: seq<Volume>, n: nat)
    ensures |Popped(disk, n)| <= |Pending(DiskAhead(disk))|
  {
    DiskFollowsAhead(disk, n);
    PopsBounded(DiskAhead(disk), n);
  }

  lemma {:induction false} PopsBounded(files: seq<QueueFile>, n: nat)
    requires AllReadable(files)
    ensures |QueuesPopped(files, n)| <= |Pending(files)|
    decreases n
  {
    if n > 0 {
      var files' := PopQueues(files).0;
      PopKeepsReadable(files);
      PopsBounded(files', n - 1);
      if files != [] && |files[0].lines| > 1 {
        var tail := files[0].lines[1..];
        assert files[0] in files;
        assert forall line :: line in tail ==> line in files[0].lines;
        ReparseFacts(tail);
        assert files'[1..] == files[1..];
      }
    }
  }

  // ---- A marked line out of place ----

  const MARKED_LINE: string := [BOM] + "b"

  /** One volume, whose bootnext file has a second line that starts with a byte order mark. */
  function MarkedDisk(): seq<Volume> {
    [Volume(true, map[ROOT_FLAG := Node.Text("a\r\n" + MARKED_LINE + "\r\n")], {}, None)]
  }

  lemma MarkedLines()
    ensures ParseQueue("a\r\n" + MARKED_LINE + "\r\n") == ["a", MARKED_LINE]
    ensures Reparse([MARKED_LINE]) == ["b"]
  {
    var lines := ["a", MARKED_LINE];
    assert Render([]) == "" && Render([MARKED_LINE]) == MARKED_LINE + "\r\n" + Render([]);
    assert Render(lines) == "a" + "\r\n" + Render(lines[1..]) && lines[1..] == [MARKED_LINE];
    assert Render(lines) == "a\r\n" + MARKED_LINE + "\r\n";
    assert forall line :: line in lines ==> IsLine(line);
    RewriteRoundTrip(lines);
    BomIsLost([MARKED_LINE]);
    assert MARKED_LINE[1..] == "b";
    TrimFacts("b");
  }

  lemma MarkedQueues()
    ensures DiskQueues(MarkedDisk()) == [Queue(["a", MARKED_LINE])]
    ensures DiskAhead(MarkedDisk()) == DiskQueues(MarkedDisk())
  {
    var disk := MarkedDisk();
    MarkedLines();
    assert ROOT_FLAG != EFI_FLAG by { assert |ROOT_FLAG| != |EFI_FLAG|; }
    assert VolumeQueues(disk[0]) == [Queue(["a", MARKED_LINE])];
    assert DiskQueues(disk[1..]) == [];
    assert Ahead(DiskQueues(disk)) == DiskQueues(disk);
  }

  lemma MarkedPops()
    ensures PopQueues([Queue(["a", MARKED_LINE])]) == ([Queue(["b"])], Some("a"))
    ensures PopQueues([Queue(["b"])]) == ([], Some("b"))
  {
    var files: seq<QueueFile> := [Queue(["a", MARKED_LINE])];
    MarkedLines();
    assert files[0].lines[1..] == [MARKED_LINE];
    assert PopQueues(files).0 == [Queue(["b"])] + files[1..] == [Queue(["b"])];
  }

  lemma TwoPops(files: seq<QueueFile>)
    ensures QueuesPopped(files, 2) == Target(PopQueues(files).1) + Target(PopQueues(PopQueues(files).0).1)
  {
    var next := PopQueues(files).0;
    assert QueuesPopped(next, 1) == Target(PopQueues(next).1) + QueuesPopped(PopQueues(next).0, 0);
  }

  /** The line that two boots pop second is not the one in the file. */
  lemma MarkedDiskDamaged()
    ensures Pending(DiskQueues(MarkedDisk())) == ["a", MARKED_LINE]
    ensures Popped(MarkedDisk(), 2) == ["a", "b"] != ["a", MARKED_LINE]
  {
    MarkedQueues();
    MarkedPops();
    DiskFollowsQueues(MarkedDisk(), 2);
    TwoPops([Queue(["a", MARKED_LINE])]);
    assert ["a", MARKED_LINE] + Pending([]) == ["a", MARKED_LINE];
    assert |MARKED_LINE| != |"b"|;
    assert ["a", "b"][1] != ["a", MARKED_LINE][1];
  }

  // ---- What an unreadable file does ----

  lemma {:induction false} PopDiskHalted(disk: seq<Volume>)
    requires Halts(DiskQueues(disk))
    ensures PopDisk(disk) == (disk, None)
  {
    if disk != [] {
      var first := VolumeQueues(disk[0]);
      if first == [] {
        PopVolumeRefines(disk[0]);
        assert first + DiskQueues(disk[1..]) == DiskQueues(disk[1..]);
        PopDiskHalted(disk[1..]);
      } else if FlagQueue(disk[0], ROOT_FLAG) != [] {
        assert first[0] == FlagQueue(disk[0], ROOT_FLAG)[0];
      }
      assert [disk[0]] + disk[1..] == disk;
    }
  }

  lemma {:induction false} HaltedForGood(disk: seq<Volume>, n: nat)
    requires Halts(DiskQueues(disk))
    ensures DiskAfter(disk, n) == disk && Popped(disk, n) == []
  {
    if n > 0 {
      PopDiskHalted(disk);
      HaltedForGood(disk, n - 1);
    }
  }

  lemma {:induction false} HaltedFrom(disk: seq<Volume>, m: nat, n: nat)
    requires m <= n && Halts(DiskQueues(DiskAfter(disk, m)))
    ensures DiskAfter(disk, n) == DiskAfter(disk, m) && Popped(disk, n) == Popped(disk, m)
    decreases m
  {
    if m == 0 {
      HaltedForGood(disk, n);
    } else {
      HaltedFrom(PopDisk(disk).0, m - 1, n - 1);
    }
  }

  /** A flag file that is not readable text stays for ever and hides all the files after it: once
      those ahead of it are gone, no boot changes the disk or pops anything. */
  lemma BlockedFileStopsTheQueue(disk: seq<Volume>, n: nat)
    requires n >= Work(DiskAhead(disk))
    ensures DiskAfter(disk, n) == DiskAfter(disk, Work(DiskAhead(disk)))
    ensures Popped(disk, n) == Popped(disk, Work(DiskAhead(disk)))
  {
    var m := Work(DiskAhead(disk));
    BootsDrainTheQueue(disk, m);
    AheadBehind(DiskQueues(disk));
    HaltedFrom(disk, m, n);
  }
}
