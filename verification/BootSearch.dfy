/** Loading and starting images: one attempt on one volume, the search of `boot_os` through all
    volumes, and the order in which `boot_linux_direct` tries the entries. */
module BootSearch {
  import opened Prelude
  import opened Text
  import opened Volumes
  import opened BootEntry

  /** What is asked of the firmware about an image: a load that succeeds, the start of an image with
      its load options, an unload. */
  datatype ImageCall = Load(handle: nat) | Start(handle: nat, options: string) | Unload(handle: nat)

  /** How the firmware answers an attempt: for each step the status it fails with, if it does. */
  datatype Launch = Launch(
    devicePath: Option<Status>,
    load: Option<Status>,
    protocol: Option<Status>,
    start: Option<Status>)

  /** How an attempt ends, and its image calls; `error` is `None` for `Ok(())`. */
  datatype Attempt = Attempt(error: Option<Status>, calls: seq<ImageCall>)

  function Fail(status: Status): Attempt {
    Attempt(Some(status), [])
  }

  /** What `CString16::try_from` accepts: no NUL, nothing beyond UCS-2. */
  predicate IsUcs2(s: string) {
    forall i :: 0 <= i < |s| ==> 0 < s[i] as int < 0x10000
  }

  /** Open and read a whole regular file. */
  function ReadFile(v: Volume, path: string): Result<Node, Status> {
    if !IsUcs2(path) then Err(INVALID_PARAMETER)
    else if path !in v.files then Err(NOT_FOUND)
    else
      match v.files[path]
      case Refused(status) => Err(status)
      case Directory => Err(LOAD_ERROR)
      case Unreadable(status) => Err(status)
      case Text(_) => Ok(v.files[path])
      case NotUtf8 => Ok(v.files[path])
  }

  /** Load the kernel, open its loaded-image protocol, set its options and start it; unload it again
      on any error. */
  function LaunchAttempt(options: string, launch: Launch, handle: nat): Attempt {
    if launch.load.Some? then Fail(launch.load.value)
    else if launch.protocol.Some? then Attempt(launch.protocol, [Load(handle), Unload(handle)])
    else if !IsUcs2(options) then Attempt(Some(INVALID_PARAMETER), [Load(handle), Unload(handle)])
    else if launch.start.Some? then
      Attempt(launch.start, [Load(handle), Start(handle, options), Unload(handle)])
    else Attempt(None, [Load(handle), Start(handle, options)])
  }

  /** `boot_linux_from_entry_file` */
  function EntryAttempt(v: Volume, path: string, launch: Launch, handle: nat): Attempt {
    var file := ReadFile(v, path);
    if file.Err? then Fail(file.error)
    else if !file.value.Text? then Fail(LOAD_ERROR)
    else
      var entry := ParseEntry(file.value.text);
      if entry.linux.None? then Fail(NOT_FOUND)
      else
        var kernel := ReadFile(v, Backslashes(entry.linux.value));
        if kernel.Err? then Fail(kernel.error)
        else if launch.devicePath.Some? then Fail(launch.devicePath.value)
        else LaunchAttempt(FinalOptions(entry), launch, handle)
  }

  /** The other branch of `boot_os`: start the file itself. */
  function FileAttempt(v: Volume, path: string, launch: Launch, handle: nat): Attempt {
    var file := ReadFile(v, path);
    if file.Err? then Fail(file.error)
    else if launch.devicePath.Some? then Fail(launch.devicePath.value)
    else if launch.load.Some? then Fail(launch.load.value)
    else if launch.start.Some? then
      Attempt(launch.start, [Load(handle), Start(handle, ""), Unload(handle)])
    else Attempt(None, [Load(handle), Start(handle, "")])
  }

  predicate IsEntryPath(path: string) {
    EndsWith(path, ".conf") || EndsWith(path, ".CONF")
  }

  function VolumeAttempt(v: Volume, path: string, launch: Launch, handle: nat): Attempt {
    if !v.opens then Fail(NOT_FOUND)
    else if IsEntryPath(path) then EntryAttempt(v, path, launch, handle)
    else FileAttempt(v, path, launch, handle)
  }

  /** The handle of the next image: every attempt that loads one uses one up. */
  function NextHandle(handle: nat, calls: seq<ImageCall>): nat {
    if calls == [] then handle else handle + 1
  }

  /** `boot_os` from volume number `from` on; `launches(i)` is the firmware's answer on volume i. */
  function Search(volumes: seq<Volume>, path: string, launches: nat -> Launch, from: nat, handle: nat): Attempt
    requires from <= |volumes|
    decreases |volumes| - from
  {
    if from == |volumes| then Fail(NOT_FOUND)
    else
      var attempt := VolumeAttempt(volumes[from], path, launches(from), handle);
      if attempt.error.None? then attempt
      else
        var rest := Search(volumes, path, launches, from + 1, NextHandle(handle, attempt.calls));
        Attempt(rest.error, attempt.calls + rest.calls)
  }

  /** The next handle after that search. */
  function HandleAfter(volumes: seq<Volume>, path: string, launches: nat -> Launch, from: nat, handle: nat): nat
    requires from <= |volumes|
    decreases |volumes| - from
  {
    if from == |volumes| then handle
    else
      var attempt := VolumeAttempt(volumes[from], path, launches(from), handle);
      var next := NextHandle(handle, attempt.calls);
      if attempt.error.None? then next else HandleAfter(volumes, path, launches, from + 1, next)
  }

  // ---- What an attempt does, read off the files ----

  /** No NUL, and nothing beyond 16 bits. */
  ghost predicate Plain(s: string) {
    '\0' !in s && forall c :: c in s ==> c as int <= 0xFFFF
  }

  lemma PlainIff(s: string)
    ensures IsUcs2(s) <==> Plain(s)
  {
    if IsUcs2(s) {
      forall c | c in s ensures 0 < c as int <= 0xFFFF {
        var i :| 0 <= i < |s| && s[i] == c;
      }
    }
    if Plain(s) {
      forall i | 0 <= i < |s| ensures 0 < s[i] as int < 0x10000 {
        assert s[i] in s;
        assert s[i] != '\0';
      }
    }
  }

  /** Reading a file: what is read, and the status of each failure. */
  lemma ReadFileMeaning(v: Volume, path: string)
    ensures ReadFile(v, path).Ok? <==> Readable(v, path)
    ensures Readable(v, path) ==> ReadFile(v, path) == Ok(v.files[path])
    ensures !Plain(path) ==> ReadFile(v, path) == Err(INVALID_PARAMETER)
    ensures Plain(path) && path !in v.files ==> ReadFile(v, path) == Err(NOT_FOUND)
    ensures Plain(path) && path in v.files && v.files[path] == Directory ==> ReadFile(v, path) == Err(LOAD_ERROR)
    ensures Plain(path) && path in v.files ==>
              forall status: Status ::
                v.files[path] == Refused(status) || v.files[path] == Unreadable(status) ==>
                  ReadFile(v, path) == Err(status)
  {
    PlainIff(path);
  }

  /** The path leads to a regular file that can be read. */
  ghost predicate Readable(v: Volume, path: string) {
    Plain(path) && path in v.files && (v.files[path] == NotUtf8 || exists text :: v.files[path] == Node.Text(text))
  }

  /** The kernel that an entry names: its last `linux` value, the slashes turned round. */
  function KernelPath(lines: seq<string>): string
    requires ValuesOf(lines, "linux") != []
  {
    var values := ValuesOf(lines, "linux");
    Backslashes(JoinSpace(values[|values| - 1]))
  }

  /** The load options that an entry makes. */
  function OptionsText(lines: seq<string>): string {
    JoinSpace(LastWords(ValuesOf(lines, "options")) + ItemsWords(ValuesOf(lines, "initrd")))
  }

  ghost predicate NothingFails(launch: Launch) {
    launch.devicePath == None && launch.load == None && launch.protocol == None && launch.start == None
  }

  lemma EntryParts(v: Volume, path: string)
    requires Readable(v, path) && v.files[path].Text?
    ensures var lines, entry := Lines(v.files[path].text), ParseEntry(v.files[path].text);
            && (entry.linux.Some? <==> ValuesOf(lines, "linux") != [])
            && (entry.linux.Some? ==> Backslashes(entry.linux.value) == KernelPath(lines))
            && FinalOptions(entry) == OptionsText(lines)
  {
    var lines := Lines(v.files[path].text);
    ParseMeaning(lines);
    FinalOptionsExact(lines);
  }

  /** An entry is booted if and only if its file is readable text, some line of it names a kernel, the
      kernel that the last such line names is readable, its options fit, and no firmware step fails.
      Then exactly that image is loaded and started with these options. */
  lemma EntryOkIff(v: Volume, path: string, launch: Launch, handle: nat)
    ensures var attempt := EntryAttempt(v, path, launch, handle);
            && (attempt.error == None <==>
                && Readable(v, path) && v.files[path].Text?
                && var lines := Lines(v.files[path].text);
                   && ValuesOf(lines, "linux") != []
                   && Readable(v, KernelPath(lines))
                   && Plain(OptionsText(lines))
                   && NothingFails(launch))
            && (attempt.error == None ==>
                  attempt.calls == [Load(handle), Start(handle, OptionsText(Lines(v.files[path].text)))])
  {
    ReadFileMeaning(v, path);
    if Readable(v, path) && v.files[path].Text? {
      var lines := Lines(v.files[path].text);
      EntryParts(v, path);
      PlainIff(OptionsText(lines));
      if ValuesOf(lines, "linux") != [] {
        ReadFileMeaning(v, KernelPath(lines));
      }
    }
  }

  /** The status of an entry that cannot be read, is not text or names no kernel that can be read; no
      image is loaded then. */
  lemma EntryUnusable(v: Volume, path: string, launch: Launch, handle: nat)
    ensures !Readable(v, path) ==> EntryAttempt(v, path, launch, handle) == Attempt(Some(ReadFile(v, path).error), [])
    ensures Readable(v, path) && !v.files[path].Text? ==>
              EntryAttempt(v, path, launch, handle) == Attempt(Some(LOAD_ERROR), [])
    ensures Readable(v, path) && v.files[path].Text? ==>
              var lines := Lines(v.files[path].text);
              && (ValuesOf(lines, "linux") == [] ==>
                    EntryAttempt(v, path, launch, handle) == Attempt(Some(NOT_FOUND), []))
              && (ValuesOf(lines, "linux") != [] && !Readable(v, KernelPath(lines)) ==>
                    EntryAttempt(v, path, launch, handle) ==
                    Attempt(Some(ReadFile(v, KernelPath(lines)).error), []))
  {
    ReadFileMeaning(v, path);
    if Readable(v, path) && v.files[path].Text? {
      var lines := Lines(v.files[path].text);
      EntryParts(v, path);
      if ValuesOf(lines, "linux") != [] {
        ReadFileMeaning(v, KernelPath(lines));
      }
    }
  }

  /** The status and the image calls of an entry whose kernel is read, for each firmware step that
      fails first. */
  lemma EntryLaunch(v: Volume, path: string, launch: Launch, handle: nat)
    requires Readable(v, path) && v.files[path].Text?
    requires ValuesOf(Lines(v.files[path].text), "linux") != []
    requires Readable(v, KernelPath(Lines(v.files[path].text)))
    ensures var attempt, options := EntryAttempt(v, path, launch, handle), OptionsText(Lines(v.files[path].text));
            && (launch.devicePath.Some? ==> attempt == Attempt(launch.devicePath, []))
            && (launch.devicePath.None? && launch.load.Some? ==> attempt == Attempt(launch.load, []))
            && (launch.devicePath.None? && launch.load.None? ==>
                  && (launch.protocol.Some? ==> attempt == Attempt(launch.protocol, [Load(handle), Unload(handle)]))
                  && (launch.protocol.None? && !Plain(options) ==>
                        attempt == Attempt(Some(INVALID_PARAMETER), [Load(handle), Unload(handle)]))
                  && (launch.protocol.None? && Plain(options) && launch.start.Some? ==>
                        attempt == Attempt(launch.start, [Load(handle), Start(handle, options), Unload(handle)])))
  {
    EntryParts(v, path);
    ReadFileMeaning(v, path);
    ReadFileMeaning(v, KernelPath(Lines(v.files[path].text)));
    PlainIff(OptionsText(Lines(v.files[path].text)));
  }

  /** A file that is no entry is loaded and started itself, without options. */
  lemma FileMeaning(v: Volume, path: string, launch: Launch, handle: nat)
    ensures var attempt := FileAttempt(v, path, launch, handle);
            && (!Readable(v, path) ==> attempt == Attempt(Some(ReadFile(v, path).error), []))
            && (Readable(v, path) && launch.devicePath.Some? ==> attempt == Attempt(launch.devicePath, []))
            && (Readable(v, path) && launch.devicePath.None? && launch.load.Some? ==>
                  attempt == Attempt(launch.load, []))
            && (Readable(v, path) && launch.devicePath.None? && launch.load.None? ==>
                  attempt ==
                  Attempt(launch.start,
                          [Load(handle), Start(handle, "")] + if launch.start.Some? then [Unload(handle)] else []))
  {
    ReadFileMeaning(v, path);
    assert [Load(handle), Start(handle, "")] + [Unload(handle)] == [Load(handle), Start(handle, ""), Unload(handle)];
  }

  /** Which of the two it is: a path is an entry if it ends in `.conf` or `.CONF`. */
  lemma VolumeMeaning(v: Volume, path: string, launch: Launch, handle: nat)
    ensures !v.opens ==> VolumeAttempt(v, path, launch, handle) == Attempt(Some(NOT_FOUND), [])
    ensures v.opens && (exists front :: path == front + ".conf" || path == front + ".CONF") ==>
              VolumeAttempt(v, path, launch, handle) == EntryAttempt(v, path, launch, handle)
    ensures v.opens && !(exists front :: path == front + ".conf" || path == front + ".CONF") ==>
              VolumeAttempt(v, path, launch, handle) == FileAttempt(v, path, launch, handle)
  {
    EndsWithIff(path, ".conf");
    EndsWithIff(path, ".CONF");
  }

  /** An entry whose kernel path has a slash boots the file of that path with a backslash. */
  lemma EntryBoots(v: Volume, path: string, launch: Launch, handle: nat)
    requires Plain(path) && path in v.files && NothingFails(launch)
    requires v.files[path] == Node.Text(KERNEL_LINE + "\n" + (OPTIONS_LINE + "\n"))
    requires "\\k" in v.files && v.files["\\k"] == NotUtf8
    ensures EntryAttempt(v, path, launch, handle) == Attempt(None, [Load(handle), Start(handle, "q")])
  {
    EntryExample();
    PlainIff(path);
    assert Backslashes("/k") == "\\k";
    assert CommandLine("q", []) == "q";
  }

  // ---- The search ----

  ghost predicate Succeeds(v: Volume, path: string, launch: Launch) {
    VolumeAttempt(v, path, launch, 0).error.None?
  }

  lemma SucceedsAnyHandle(v: Volume, path: string, launch: Launch, handle: nat)
    ensures VolumeAttempt(v, path, launch, handle).error == VolumeAttempt(v, path, launch, 0).error
  {
  }

  /** The search ends in Ok exactly when the attempt on some volume succeeds, and in NOT_FOUND
      otherwise. */
  lemma {:induction false} SearchOkIff(volumes: seq<Volume>, path: string, launches: nat -> Launch,
                                       from: nat, handle: nat)
    requires from <= |volumes|
    ensures var error := Search(volumes, path, launches, from, handle).error;
            && (error.None? <==> exists i: nat :: from <= i < |volumes| && Succeeds(volumes[i], path, launches(i)))
            && (error.Some? ==> error.value == NOT_FOUND)
    decreases |volumes| - from
  {
    if from < |volumes| {
      var attempt := VolumeAttempt(volumes[from], path, launches(from), handle);
      SucceedsAnyHandle(volumes[from], path, launches(from), handle);
      if attempt.error.None? {
        assert Succeeds(volumes[from], path, launches(from));
      } else {
        SearchOkIff(volumes, path, launches, from + 1, NextHandle(handle, attempt.calls));
      }
    }
  }

  /** Volumes are tried in order, and none after the first that succeeds: the search with the later
      volumes replaced by any others is the same. */
  lemma {:induction false} SearchStopsAtFirst(volumes: seq<Volume>, others: seq<Volume>, path: string,
                                              launches: nat -> Launch, from: nat, handle: nat, first: nat)
    requires from <= first < |volumes| && first < |others|
    requires Succeeds(volumes[first], path, launches(first))
    requires others[..first + 1] == volumes[..first + 1]
    ensures Search(volumes, path, launches, from, handle) == Search(others, path, launches, from, handle)
    decreases first - from
  {
    assert others[from] == others[..first + 1][from] == volumes[from];
    var attempt := VolumeAttempt(volumes[from], path, launches(from), handle);
    SucceedsAnyHandle(volumes[from], path, launches(from), handle);
    if attempt.error.Some? {
      SearchStopsAtFirst(volumes, others, path, launches, from + 1, NextHandle(handle, attempt.calls), first);
    }
  }

  /** The image that is left running is the one of the first volume whose attempt succeeds: the calls
      end with those of that attempt. */
  lemma {:induction false} SearchEndsWith(volumes: seq<Volume>, path: string, launches: nat -> Launch,
                                          from: nat, handle: nat, first: nat)
    returns (last: nat, before: seq<ImageCall>)
    requires from <= first < |volumes| && Succeeds(volumes[first], path, launches(first))
    requires forall i :: from <= i < first ==> !Succeeds(volumes[i], path, launches(i))
    ensures Search(volumes, path, launches, from, handle) ==
            Attempt(None, before + VolumeAttempt(volumes[first], path, launches(first), last).calls)
    decreases first - from
  {
    var attempt := VolumeAttempt(volumes[from], path, launches(from), handle);
    SucceedsAnyHandle(volumes[from], path, launches(from), handle);
    if from == first {
      last, before := handle, [];
      assert [] + attempt.calls == attempt.calls;
    } else {
      assert !Succeeds(volumes[from], path, launches(from));
      var next := NextHandle(handle, attempt.calls);
      last, before := SearchEndsWith(volumes, path, launches, from + 1, next, first);
      Associate(attempt.calls, before, VolumeAttempt(volumes[first], path, launches(first), last).calls);
      before := attempt.calls + before;
    }
  }

  /** `whole` and `last` are what the search ends with: `calls` so far, then those from `i` on. */
  ghost predicate Searching(whole: Attempt, last: nat, volumes: seq<Volume>, path: string,
                            launches: nat -> Launch, i: nat, handle: nat, calls: seq<ImageCall>)
    requires i <= |volumes|
  {
    && whole == Attempt(Search(volumes, path, launches, i, handle).error,
                        calls + Search(volumes, path, launches, i, handle).calls)
    && last == HandleAfter(volumes, path, launches, i, handle)
  }

  lemma SearchOne(whole: Attempt, last: nat, volumes: seq<Volume>, path: string,
                  launches: nat -> Launch, i: nat, handle: nat, calls: seq<ImageCall>)
    requires i < |volumes| && Searching(whole, last, volumes, path, launches, i, handle, calls)
    ensures var attempt := VolumeAttempt(volumes[i], path, launches(i), handle);
            var (next, calls') := (NextHandle(handle, attempt.calls), calls + attempt.calls);
            if attempt.error.None? then whole == Attempt(None, calls') && last == next
            else Searching(whole, last, volumes, path, launches, i + 1, next, calls')
  {
    var attempt := VolumeAttempt(volumes[i], path, launches(i), handle);
    if attempt.error.Some? {
      Associate(calls, attempt.calls, Search(volumes, path, launches, i + 1, NextHandle(handle, attempt.calls)).calls);
    }
  }

  lemma SearchStart(volumes: seq<Volume>, path: string, launches: nat -> Launch, handle: nat)
    ensures Searching(Search(volumes, path, launches, 0, handle), HandleAfter(volumes, path, launches, 0, handle),
                      volumes, path, launches, 0, handle, [])
  {
    var whole := Search(volumes, path, launches, 0, handle);
    assert [] + whole.calls == whole.calls;
  }

  lemma SearchEnd(whole: Attempt, last: nat, volumes: seq<Volume>, path: string,
                  launches: nat -> Launch, handle: nat, calls: seq<ImageCall>)
    requires Searching(whole, last, volumes, path, launches, |volumes|, handle, calls)
    ensures whole == Attempt(Some(NOT_FOUND), calls) && last == handle
  {
    assert calls + [] == calls;
  }

  // ---- Image conservation ----

  ghost predicate AllFrom(calls: seq<ImageCall>, handle: nat) {
    forall c :: c in calls ==> c.handle >= handle
  }

  /** Every image loaded has been unloaded exactly once, and no other. */
  ghost predicate Conserved(calls: seq<ImageCall>) {
    forall h: nat :: multiset(calls)[Load(h)] == multiset(calls)[Unload(h)] <= 1
  }

  /** Calls that conserve images, then one image loaded and started. */
  ghost predicate OneLeftRunning(calls: seq<ImageCall>) {
    |calls| >= 2 &&
    var before, tail := calls[..|calls| - 2], calls[|calls| - 2..];
    && Conserved(before)
    && tail[0].Load? && tail[1].Start? && tail[1].handle == tail[0].handle
    && Load(tail[0].handle) !in before
  }

  /** The calls of an attempt that fails: the image loaded, if any, is unloaded at the end. */
  ghost predicate ClosedCalls(calls: seq<ImageCall>, handle: nat) {
    || calls == []
    || calls == [Load(handle), Unload(handle)]
    || (|calls| == 3 && calls[1].Start? && calls == [Load(handle), Start(handle, calls[1].options), Unload(handle)])
  }

  ghost predicate WellShaped(attempt: Attempt, handle: nat) {
    if attempt.error.Some? then ClosedCalls(attempt.calls, handle)
    else
      && |attempt.calls| == 2
      && attempt.calls[0] == Load(handle)
      && attempt.calls[1].Start? && attempt.calls[1].handle == handle
  }

  ghost predicate Settled(attempt: Attempt, handle: nat) {
    && (attempt.error.Some? ==> Conserved(attempt.calls))
    && (attempt.error.None? ==> OneLeftRunning(attempt.calls))
    && AllFrom(attempt.calls, handle)
  }

  lemma ClosedConserved(calls: seq<ImageCall>, handle: nat)
    requires ClosedCalls(calls, handle)
    ensures Conserved(calls)
  {
    if |calls| == 3 {
      assert multiset(calls) == multiset{Load(handle), Start(handle, calls[1].options), Unload(handle)};
    } else if calls != [] {
      assert multiset(calls) == multiset{Load(handle), Unload(handle)};
    }
  }

  lemma OpenRunning(calls: seq<ImageCall>)
    requires |calls| == 2 && calls[0].Load? && calls[1].Start? && calls[0].handle == calls[1].handle
    ensures OneLeftRunning(calls)
  {
    assert calls[..0] == [] && calls[0..] == calls;
    ClosedConserved([], 0);
  }

  lemma ShapeHandles(attempt: Attempt, handle: nat)
    requires WellShaped(attempt, handle)
    ensures forall c :: c in attempt.calls ==> c.handle == handle
  {
    if attempt.error.None? {
      assert attempt.calls == [attempt.calls[0], attempt.calls[1]];
    }
  }

  lemma WellShapedSettled(attempt: Attempt, handle: nat)
    requires WellShaped(attempt, handle)
    ensures Settled(attempt, handle)
    ensures forall c :: c in attempt.calls ==> c.handle == handle
  {
    ShapeHandles(attempt, handle);
    if attempt.error.None? {
      OpenRunning(attempt.calls);
    } else {
      ClosedConserved(attempt.calls, handle);
    }
  }

  lemma EntryShape(v: Volume, path: string, launch: Launch, handle: nat)
    ensures WellShaped(EntryAttempt(v, path, launch, handle), handle)
  {
  }

  lemma FileShape(v: Volume, path: string, launch: Launch, handle: nat)
    ensures WellShaped(FileAttempt(v, path, launch, handle), handle)
  {
  }

  /** The entry loader on its own: on every error, an image that it loaded has been unloaded. */
  lemma EntryConserves(v: Volume, path: string, launch: Launch, handle: nat)
    ensures Settled(EntryAttempt(v, path, launch, handle), handle)
  {
    EntryShape(v, path, launch, handle);
    WellShapedSettled(EntryAttempt(v, path, launch, handle), handle);
  }

  lemma AttemptShape(v: Volume, path: string, launch: Launch, handle: nat)
    ensures WellShaped(VolumeAttempt(v, path, launch, handle), handle)
  {
    EntryShape(v, path, launch, handle);
    FileShape(v, path, launch, handle);
  }

  lemma ConservedConcat(a: seq<ImageCall>, b: seq<ImageCall>, handle: nat)
    requires Conserved(a) && Conserved(b)
    requires forall c :: c in a ==> c.handle == handle
    requires AllFrom(b, handle + 1)
    ensures Conserved(a + b)
  {
    forall h: nat
      ensures multiset(a + b)[Load(h)] == multiset(a + b)[Unload(h)] <= 1
    {
      assert multiset(a + b) == multiset(a) + multiset(b);
      if h == handle {
        assert Load(h) !in b && Unload(h) !in b;
      } else {
        assert Load(h) !in a && Unload(h) !in a;
      }
    }
  }

  /** Whatever the firmware answers, `boot_os` conserves images when it fails, and leaves exactly the
      image that it started when it succeeds. */
  lemma {:induction false} SearchConserves(volumes: seq<Volume>, path: string, launches: nat -> Launch,
                                           from: nat, handle: nat)
    requires from <= |volumes|
    ensures Settled(Search(volumes, path, launches, from, handle), handle)
    decreases |volumes| - from
  {
    if from < |volumes| {
      var attempt := VolumeAttempt(volumes[from], path, launches(from), handle);
      AttemptShape(volumes[from], path, launches(from), handle);
      WellShapedSettled(attempt, handle);
      if attempt.error.Some? {
        var next := NextHandle(handle, attempt.calls);
        SearchConserves(volumes, path, launches, from + 1, next);
        SettledAfter(attempt, Search(volumes, path, launches, from + 1, next), handle);
      }
    }
  }

  lemma SettledAfter(attempt: Attempt, rest: Attempt, handle: nat)
    requires attempt.error.Some? && Conserved(attempt.calls)
    requires forall c :: c in attempt.calls ==> c.handle == handle
    requires Settled(rest, NextHandle(handle, attempt.calls))
    ensures Settled(Attempt(rest.error, attempt.calls + rest.calls), handle)
  {
    if attempt.calls == [] {
      assert attempt.calls + rest.calls == rest.calls;
    } else if rest.error.Some? {
      ConservedConcat(attempt.calls, rest.calls, handle);
    } else {
      PrependConserved(attempt.calls, rest.calls, handle);
    }
  }

  lemma PrependConserved(a: seq<ImageCall>, b: seq<ImageCall>, handle: nat)
    requires Conserved(a) && OneLeftRunning(b)
    requires forall c :: c in a ==> c.handle == handle
    requires AllFrom(b, handle + 1)
    ensures OneLeftRunning(a + b)
  {
    var before := b[..|b| - 2];
    assert forall c :: c in before ==> c in b;
    ConservedConcat(a, before, handle);
    assert (a + b)[..|a + b| - 2] == a + before;
    assert (a + b)[|a + b| - 2..] == b[|b| - 2..];
    assert b[|b| - 2..][0] == b[|b| - 2] && b[|b| - 2] in b;
  }

  // ---- The order of boot_linux_direct ----

  /** `find_all_entries`: the names ending in `.conf`, up to the first read error. */
  function ConfNames(items: seq<DirItem>): seq<string> {
    if items == [] || items[0].ReadError? then []
    else (if EndsWith(items[0].name, ".conf") then [items[0].name] else []) + ConfNames(items[1..])
  }

  predicate IsFallback(name: string) {
    Contains(name, "fallback")
  }

  /** The names that are, or are not, fallback entries, in their order. */
  function Select(names: seq<string>, fallback: bool): seq<string> {
    if names == [] then []
    else (if IsFallback(names[0]) == fallback then [names[0]] else []) + Select(names[1..], fallback)
  }

  function FallbackLast(names: seq<string>): seq<string> {
    Select(names, false) + Select(names, true)
  }

  /** What a stable sort by the key `contains("fallback")` guarantees: the keys are in order, and
      entries with equal keys are the same as before, in the same order. */
  ghost predicate StablySorted(sorted: seq<string>, names: seq<string>) {
    && (forall i, j :: 0 <= i < j < |sorted| && IsFallback(sorted[i]) ==> IsFallback(sorted[j]))
    && (forall fallback :: Select(sorted, fallback) == Select(names, fallback))
  }

  lemma {:induction false} SelectFacts(names: seq<string>, fallback: bool)
    ensures forall i :: 0 <= i < |Select(names, fallback)| ==> IsFallback(Select(names, fallback)[i]) == fallback
  {
    if names != [] {
      SelectFacts(names[1..], fallback);
    }
  }

  lemma {:induction false} SelectPermutes(names: seq<string>)
    ensures multiset(names) == multiset(FallbackLast(names))
  {
    if names != [] {
      SelectPermutes(names[1..]);
      assert names == [names[0]] + names[1..];
    }
  }

  lemma {:induction false} SelectUniform(names: seq<string>, fallback: bool)
    requires forall i :: 0 <= i < |names| ==> IsFallback(names[i]) == fallback
    ensures Select(names, fallback) == names && Select(names, !fallback) == []
  {
    if names != [] {
      SelectUniform(names[1..], fallback);
    }
  }

  lemma {:induction false} SelectConcat(a: seq<string>, b: seq<string>, fallback: bool)
    ensures Select(a + b, fallback) == Select(a, fallback) + Select(b, fallback)
  {
    if a == [] {
      assert a + b == b;
    } else {
      assert (a + b)[1..] == a[1..] + b;
      SelectConcat(a[1..], b, fallback);
    }
  }

  lemma {:induction false} SortedSplits(sorted: seq<string>)
    requires forall i, j :: 0 <= i < j < |sorted| && IsFallback(sorted[i]) ==> IsFallback(sorted[j])
    ensures sorted == FallbackLast(sorted)
  {
    if sorted != [] {
      if IsFallback(sorted[0]) {
        assert forall i :: 0 <= i < |sorted| ==> IsFallback(sorted[i]);
        SelectUniform(sorted, true);
      } else {
        SortedSplits(sorted[1..]);
        assert sorted == [sorted[0]] + sorted[1..];
      }
    }
  }

  /** The stable sort of the source is the partition into the other entries and then the fallback
      ones: no other outcome meets the contract of the sort. */
  lemma StableSortIsPartition(sorted: seq<string>, names: seq<string>)
    ensures StablySorted(sorted, names) <==> sorted == FallbackLast(names)
  {
    if StablySorted(sorted, names) {
      SortedSplits(sorted);
    }
    SelectFacts(names, false);
    SelectFacts(names, true);
    forall fallback ensures Select(FallbackLast(names), fallback) == Select(names, fallback) {
      SelectConcat(Select(names, false), Select(names, true), fallback);
      SelectUniform(Select(names, false), false);
      SelectUniform(Select(names, true), true);
      assert Select(names, false) + [] == Select(names, false);
    }
  }

  const ENTRIES := "\\loader\\entries\\"

  /** An attempt of `boot_linux_direct`: the volume and the entry. */
  datatype Trial = Trial(volume: nat, path: string)

  function TrialsOf(volume: nat, names: seq<string>): seq<Trial> {
    seq(|names|, i requires 0 <= i < |names| => Trial(volume, ENTRIES + names[i]))
  }

  /** The names tried on one volume, in order. */
  function VolumeEntries(v: Volume): seq<string> {
    if v.opens && v.entries.Some? then FallbackLast(ConfNames(v.entries.value)) else []
  }

  /** The attempts volume by volume. */
  function TrialsByVolume(volumes: seq<Volume>): seq<seq<Trial>> {
    seq(|volumes|, v requires 0 <= v < |volumes| => TrialsOf(v, VolumeEntries(volumes[v])))
  }

  /** All attempts, in order. */
  function DirectOrder(volumes: seq<Volume>): seq<Trial> {
    Flatten(TrialsByVolume(volumes))
  }

  function TrialAttempt(volumes: seq<Volume>, trial: Trial, launch: Launch, handle: nat): Attempt {
    if trial.volume < |volumes| then EntryAttempt(volumes[trial.volume], trial.path, launch, handle)
    else Fail(NOT_FOUND)
  }

  /** The image calls of some attempts; `launches(k)` answers the k-th one. */
  function TrialCalls(volumes: seq<Volume>, trials: seq<Trial>, launches: nat -> Launch, handle: nat)
    : (seq<ImageCall>, nat)
    decreases |trials|, 1
  {
    if trials == [] then ([], handle) else LastTrialCalls(volumes, trials, launches, handle)
  }

  function LastTrialCalls(volumes: seq<Volume>, trials: seq<Trial>, launches: nat -> Launch, handle: nat)
    : (seq<ImageCall>, nat)
    requires trials != []
    decreases |trials|, 0
  {
    var k := |trials| - 1;
    var (calls, next) := TrialCalls(volumes, trials[..k], launches, handle);
    var attempt := TrialAttempt(volumes, trials[k], launches(k), next);
    (calls + attempt.calls, NextHandle(next, attempt.calls))
  }

  /** The attempts on one volume, in order. */
  function OfVolume(trials: seq<Trial>, volume: nat): seq<Trial> {
    if trials == [] then []
    else
      var last := trials[|trials| - 1];
      OfVolume(trials[..|trials| - 1], volume) + if last.volume == volume then [last] else []
  }

  lemma {:induction false} OfVolumeConcat(a: seq<Trial>, b: seq<Trial>, volume: nat)
    ensures OfVolume(a + b, volume) == OfVolume(a, volume) + OfVolume(b, volume)
  {
    if b == [] {
      assert a + b == a;
    } else {
      assert (a + b)[..|a + b| - 1] == a + b[..|b| - 1];
      OfVolumeConcat(a, b[..|b| - 1], volume);
    }
  }

  lemma {:induction false} OfVolumeUniform(trials: seq<Trial>, owner: nat, volume: nat)
    requires forall i :: 0 <= i < |trials| ==> trials[i].volume == owner
    ensures OfVolume(trials, volume) == if owner == volume then trials else []
  {
    if trials != [] {
      OfVolumeUniform(trials[..|trials| - 1], owner, volume);
    }
  }

  /** `parts[k]` holds attempts on volume `base + k` only. */
  ghost predicate ByVolume(parts: seq<seq<Trial>>, base: nat) {
    forall k: nat, i: nat :: k < |parts| && i < |parts[k]| ==> parts[k][i].volume == base + k
  }

  lemma {:induction false} FlattenBounds(parts: seq<seq<Trial>>, base: nat)
    requires ByVolume(parts, base)
    ensures forall i :: 0 <= i < |Flatten(parts)| ==> base <= Flatten(parts)[i].volume < base + |parts|
    ensures forall i, j :: 0 <= i < j < |Flatten(parts)| ==> Flatten(parts)[i].volume <= Flatten(parts)[j].volume
  {
    if parts != [] {
      assert ByVolume(parts[1..], base + 1) by { ByVolumeTail(parts, base); }
      FlattenBounds(parts[1..], base + 1);
    }
  }

  lemma ByVolumeTail(parts: seq<seq<Trial>>, base: nat)
    requires ByVolume(parts, base) && parts != []
    ensures ByVolume(parts[1..], base + 1)
  {
    var tail: seq<seq<Trial>> := parts[1..];
    forall k: nat, i: nat | k < |tail| && i < |tail[k]| ensures tail[k][i].volume == base + 1 + k {
      assert tail[k] == parts[k + 1];
    }
  }

  lemma {:induction false} FlattenByVolume(parts: seq<seq<Trial>>, base: nat, k: nat)
    requires ByVolume(parts, base) && k < |parts|
    ensures OfVolume(Flatten(parts), base + k) == parts[k]
  {
    FirstPart(parts, base, base + k);
    ByVolumeTail(parts, base);
    if k == 0 {
      FlattenBounds(parts[1..], base + 1);
      NoneOfVolume(Flatten(parts[1..]), base);
    } else {
      FlattenByVolume(parts[1..], base + 1, k - 1);
    }
  }

  lemma FirstPart(parts: seq<seq<Trial>>, base: nat, volume: nat)
    requires ByVolume(parts, base) && parts != []
    ensures OfVolume(Flatten(parts), volume) ==
            (if volume == base then parts[0] else []) + OfVolume(Flatten(parts[1..]), volume)
  {
    OfVolumeConcat(parts[0], Flatten(parts[1..]), volume);
    OfVolumeUniform(parts[0], base, volume);
  }

  lemma TrialsByVolumeFacts(volumes: seq<Volume>)
    ensures |TrialsByVolume(volumes)| == |volumes| && ByVolume(TrialsByVolume(volumes), 0)
  {
  }

  /** The attempts on any one volume are exactly its entries, in a stable order with the fallback ones
      last, whatever the attempts return. */
  lemma DirectOrderMeaning(volumes: seq<Volume>, v: nat)
    requires v < |volumes|
    ensures OfVolume(DirectOrder(volumes), v) == TrialsOf(v, VolumeEntries(volumes[v]))
  {
    TrialsByVolumeFacts(volumes);
    FlattenByVolume(TrialsByVolume(volumes), 0, v);
  }

  /** The volumes are taken in order. */
  lemma DirectOrderSorted(volumes: seq<Volume>)
    ensures forall i, j :: 0 <= i < j < |DirectOrder(volumes)| ==>
              DirectOrder(volumes)[i].volume <= DirectOrder(volumes)[j].volume < |volumes|
  {
    var parts := TrialsByVolume(volumes);
    TrialsByVolumeFacts(volumes);
    FlattenBounds(parts, 0);
    assert DirectOrder(volumes) == Flatten(parts);
    assert forall i :: 0 <= i < |Flatten(parts)| ==> Flatten(parts)[i].volume < 0 + |parts|;
  }

  lemma {:induction false} NoneOfVolume(trials: seq<Trial>, volume: nat)
    requires forall i :: 0 <= i < |trials| ==> trials[i].volume != volume
    ensures OfVolume(trials, volume) == []
  {
    if trials != [] {
      NoneOfVolume(trials[..|trials| - 1], volume);
    }
  }

  /** The entries of one volume are each tried once: their order is a permutation of the names. */
  lemma VolumeEntriesOnce(v: Volume)
    requires v.opens && v.entries.Some?
    ensures multiset(VolumeEntries(v)) == multiset(ConfNames(v.entries.value))
    ensures StablySorted(VolumeEntries(v), ConfNames(v.entries.value))
  {
    SelectPermutes(ConfNames(v.entries.value));
    StableSortIsPartition(VolumeEntries(v), ConfNames(v.entries.value));
  }

  // ---- The attempts on one volume, read off its directory ----

  /** How much of a directory is read: up to the first error. */
  function ReadLength(items: seq<DirItem>): nat {
    IndexOf(items, ReadError)
  }

  /** Item `i` is read and is an entry. */
  ghost predicate Listed(items: seq<DirItem>, i: nat) {
    i < ReadLength(items) && items[i].Name? && exists front :: items[i].name == front + ".conf"
  }

  /** The entry that item `i` offers, if it is one. */
  function NameOffers(items: seq<DirItem>): seq<Option<string>> {
    seq(|items|, i requires 0 <= i < |items| =>
      if i < ReadLength(items) && items[i].Name? && EndsWith(items[i].name, ".conf") then Some(items[i].name)
      else None)
  }

  lemma {:induction false} ConfNamesMeaning(items: seq<DirItem>)
    ensures ConfNames(items) == Somes(NameOffers(items))
  {
    var offers := NameOffers(items);
    if items == [] || items[0].ReadError? {
      SomesNone(offers);
    } else {
      ConfNamesMeaning(items[1..]);
      assert ReadLength(items) == 1 + ReadLength(items[1..]);
      assert offers == [offers[0]] + NameOffers(items[1..]);
      SomesFirst(offers[0], NameOffers(items[1..]));
    }
  }

  /** The names of one group. */
  function GroupOffers(names: seq<string>, fallback: bool): seq<Option<string>> {
    seq(|names|, i requires 0 <= i < |names| => if IsFallback(names[i]) == fallback then Some(names[i]) else None)
  }

  lemma {:induction false} SelectMeaning(names: seq<string>, fallback: bool)
    ensures Select(names, fallback) == Somes(GroupOffers(names, fallback))
  {
    var offers := GroupOffers(names, fallback);
    if names != [] {
      SelectMeaning(names[1..], fallback);
      assert offers == [offers[0]] + GroupOffers(names[1..], fallback);
      SomesFirst(offers[0], GroupOffers(names[1..], fallback));
    }
  }

  ghost predicate HasFallback(name: string) {
    exists a, b :: name == a + "fallback" + b
  }

  lemma FallbackIff(name: string)
    ensures IsFallback(name) <==> HasFallback(name)
  {
    ContainsIff(name, "fallback");
  }

  /** The order in which a directory is tried: each listed item once, those without `fallback` in their
      name first, and otherwise as they are in the directory. */
  ghost predicate TriedInOrder(items: seq<DirItem>, names: seq<string>, places: seq<nat>) {
    && |places| == |names|
    && (forall k :: 0 <= k < |places| ==> Listed(items, places[k]) && items[places[k]].name == names[k])
    && (forall i: nat :: Listed(items, i) ==> i in places)
    && (forall k, l :: 0 <= k < l < |places| ==>
          if HasFallback(names[k]) == HasFallback(names[l]) then places[k] < places[l] else HasFallback(names[l]))
  }

  function Compose(listed: seq<nat>, chosen: seq<nat>): seq<nat>
    requires forall k :: 0 <= k < |chosen| ==> chosen[k] < |listed|
  {
    seq(|chosen|, k requires 0 <= k < |chosen| => listed[chosen[k]])
  }

  lemma ListedPlaces(items: seq<DirItem>) returns (places: seq<nat>)
    ensures |places| == |ConfNames(items)| && Ascending(places)
    ensures forall k :: 0 <= k < |places| ==> Listed(items, places[k]) && items[places[k]].name == ConfNames(items)[k]
    ensures forall i: nat :: Listed(items, i) ==> i in places
  {
    ConfNamesMeaning(items);
    places := SomesLists(NameOffers(items));
    forall i: nat | i < |items| ensures NameOffers(items)[i].Some? <==> Listed(items, i) {
      if items[i].Name? {
        EndsWithIff(items[i].name, ".conf");
      }
    }
  }

  lemma GroupPlaces(names: seq<string>, fallback: bool) returns (places: seq<nat>)
    ensures |places| == |Select(names, fallback)| && Ascending(places)
    ensures forall k :: 0 <= k < |places| ==>
              && places[k] < |names| && names[places[k]] == Select(names, fallback)[k]
              && HasFallback(Select(names, fallback)[k]) == fallback
    ensures forall i: nat :: i < |names| && HasFallback(names[i]) == fallback ==> i in places
  {
    SelectMeaning(names, fallback);
    places := SomesLists(GroupOffers(names, fallback));
    forall i: nat | i < |names|
      ensures GroupOffers(names, fallback)[i].Some? <==> HasFallback(names[i]) == fallback
    {
      FallbackIff(names[i]);
    }
  }

  lemma ComposeFacts(listed: seq<nat>, chosen: seq<nat>)
    requires forall k :: 0 <= k < |chosen| ==> chosen[k] < |listed|
    requires Ascending(listed) && Ascending(chosen)
    ensures Ascending(Compose(listed, chosen))
    ensures forall k: nat :: k < |listed| && k in chosen ==> listed[k] in Compose(listed, chosen)
  {
    forall k: nat | k < |listed| && k in chosen ensures listed[k] in Compose(listed, chosen) {
      var l :| 0 <= l < |chosen| && chosen[l] == k;
      assert Compose(listed, chosen)[l] == listed[k];
    }
  }

  /** One group of the listed items, in the order of the directory. */
  ghost predicate Group(items: seq<DirItem>, names: seq<string>, places: seq<nat>, fallback: bool) {
    && |places| == |names| && Ascending(places)
    && (forall k :: 0 <= k < |places| ==>
          Listed(items, places[k]) && items[places[k]].name == names[k] && HasFallback(names[k]) == fallback)
    && (forall i: nat :: Listed(items, i) && HasFallback(items[i].name) == fallback ==> i in places)
  }

  lemma OneGroup(items: seq<DirItem>, fallback: bool) returns (places: seq<nat>)
    ensures Group(items, Select(ConfNames(items), fallback), places, fallback)
  {
    var names := ConfNames(items);
    var listed := ListedPlaces(items);
    var chosen := GroupPlaces(names, fallback);
    ComposeFacts(listed, chosen);
    places := Compose(listed, chosen);
    forall i: nat | Listed(items, i) && HasFallback(items[i].name) == fallback ensures i in places {
      var k :| 0 <= k < |listed| && listed[k] == i;
      assert HasFallback(names[k]) == fallback;
    }
  }

  lemma BothGroups(items: seq<DirItem>, others: seq<string>, p: seq<nat>, fallbacks: seq<string>, q: seq<nat>)
    requires Group(items, others, p, false) && Group(items, fallbacks, q, true)
    ensures TriedInOrder(items, others + fallbacks, p + q)
  {
    var names, places := others + fallbacks, p + q;
    forall k, l | 0 <= k < l < |places|
      ensures if HasFallback(names[k]) == HasFallback(names[l]) then places[k] < places[l] else HasFallback(names[l])
    {
      GroupAt(items, others, p, fallbacks, q, k);
      GroupAt(items, others, p, fallbacks, q, l);
    }
    forall k | 0 <= k < |places| ensures Listed(items, places[k]) && items[places[k]].name == names[k] {
      GroupAt(items, others, p, fallbacks, q, k);
    }
    forall i: nat | Listed(items, i) ensures i in places {
      assert i in p || i in q;
    }
  }

  lemma GroupAt(items: seq<DirItem>, others: seq<string>, p: seq<nat>, fallbacks: seq<string>, q: seq<nat>, k: nat)
    requires Group(items, others, p, false) && Group(items, fallbacks, q, true) && k < |p + q|
    ensures |others + fallbacks| == |p + q|
    ensures Listed(items, (p + q)[k]) && items[(p + q)[k]].name == (others + fallbacks)[k]
    ensures HasFallback((others + fallbacks)[k]) <==> k >= |p|
    ensures (p + q)[k] == if k < |p| then p[k] else q[k - |p|]
  {
  }

  lemma FallbackLastMeaning(items: seq<DirItem>) returns (places: seq<nat>)
    ensures TriedInOrder(items, FallbackLast(ConfNames(items)), places)
  {
    var p := OneGroup(items, false);
    var q := OneGroup(items, true);
    places := p + q;
    BothGroups(items, Select(ConfNames(items), false), p, Select(ConfNames(items), true), q);
  }

  /** What `boot_linux_direct` tries on a volume, and in which order. */
  lemma DirectTries(volumes: seq<Volume>, v: nat) returns (names: seq<string>, places: seq<nat>)
    requires v < |volumes|
    ensures var tried := OfVolume(DirectOrder(volumes), v);
            && |tried| == |names|
            && (forall k :: 0 <= k < |names| ==> tried[k] == Trial(v, "\\loader\\entries\\" + names[k]))
    ensures volumes[v].opens && volumes[v].entries.Some? ==>
              TriedInOrder(volumes[v].entries.value, names, places)
    ensures !(volumes[v].opens && volumes[v].entries.Some?) ==> names == []
  {
    DirectOrderMeaning(volumes, v);
    names, places := VolumeEntries(volumes[v]), [];
    if volumes[v].opens && volumes[v].entries.Some? {
      places := FallbackLastMeaning(volumes[v].entries.value);
    }
  }

  // ---- Image conservation of boot_linux_direct ----

  /** The image `h` belongs to a trial that returned Ok. */
  predicate ByOkTrial(volumes: seq<Volume>, trials: seq<Trial>, launches: nat -> Launch, handle: nat, h: nat) {
    trials != [] &&
    var last := |trials| - 1;
    var next := TrialCalls(volumes, trials[..last], launches, handle).1;
    || ByOkTrial(volumes, trials[..last], launches, handle, h)
    || (next == h && TrialAttempt(volumes, trials[last], launches(last), next).error.None?)
  }

  /** How many trials returned Ok. */
  function OkTrials(volumes: seq<Volume>, trials: seq<Trial>, launches: nat -> Launch, handle: nat): nat {
    if trials == [] then 0
    else
      var last := |trials| - 1;
      var next := TrialCalls(volumes, trials[..last], launches, handle).1;
      OkTrials(volumes, trials[..last], launches, handle) +
      if TrialAttempt(volumes, trials[last], launches(last), next).error.None? then 1 else 0
  }

  /** Loads less unloads. */
  function StillLoaded(calls: seq<ImageCall>): int {
    if calls == [] then 0
    else
      StillLoaded(calls[..|calls| - 1]) +
      match calls[|calls| - 1]
      case Load(_) => 1
      case Unload(_) => -1
      case Start(_, _) => 0
  }

  lemma {:induction false} StillLoadedConcat(a: seq<ImageCall>, b: seq<ImageCall>)
    ensures StillLoaded(a + b) == StillLoaded(a) + StillLoaded(b)
  {
    if b == [] {
      assert a + b == a;
    } else {
      assert (a + b)[..|a + b| - 1] == a + b[..|b| - 1];
      StillLoadedConcat(a, b[..|b| - 1]);
    }
  }

  lemma TrialShape(volumes: seq<Volume>, trial: Trial, launch: Launch, handle: nat)
    ensures WellShaped(TrialAttempt(volumes, trial, launch, handle), handle)
  {
    if trial.volume < |volumes| {
      EntryShape(volumes[trial.volume], trial.path, launch, handle);
    }
  }

  lemma ShapeStillLoaded(attempt: Attempt, handle: nat)
    requires WellShaped(attempt, handle)
    ensures StillLoaded(attempt.calls) == if attempt.error.None? then 1 else 0
  {
    var calls := attempt.calls;
    if |calls| >= 1 {
      assert StillLoaded(calls[..1]) == 1;
    }
    if |calls| >= 2 {
      assert calls[..2][..1] == calls[..1];
      assert calls[..2][1] == calls[1];
    }
    if |calls| == 3 {
      assert calls[..3][..2] == calls[..2];
    }
    assert calls[..|calls|] == calls;
  }

  /** The calls about one image, after an attempt that has the handle `handle`. */
  lemma ShapeCounts(attempt: Attempt, handle: nat)
    requires WellShaped(attempt, handle)
    ensures var counts := multiset(attempt.calls);
            && counts[Load(handle)] == (if attempt.calls == [] then 0 else 1)
            && counts[Unload(handle)] == (if attempt.error.None? then 0 else counts[Load(handle)])
  {
    var calls := attempt.calls;
    if |calls| == 2 {
      assert calls == [calls[0], calls[1]];
    }
  }

  /** The image `h` is loaded at most once, and unloaded once unless it is kept. */
  ghost predicate ImageSettled(calls: seq<ImageCall>, h: nat, kept: bool) {
    var counts := multiset(calls);
    && counts[Load(h)] <= 1
    && (if kept then counts[Load(h)] == 1 && counts[Unload(h)] == 0 else counts[Unload(h)] == counts[Load(h)])
  }

  lemma SettledAppend(before: seq<ImageCall>, attempt: Attempt, next: nat, h: nat, kept: bool)
    requires forall c :: c in before ==> c.handle < next
    requires WellShaped(attempt, next) && forall c :: c in attempt.calls ==> c.handle == next
    requires ImageSettled(before, h, kept)
    ensures ImageSettled(before + attempt.calls, h, kept || (attempt.error.None? && next == h))
  {
    assert multiset(before + attempt.calls) == multiset(before) + multiset(attempt.calls);
    if h == next {
      ShapeCounts(attempt, next);
      assert Load(h) !in before && Unload(h) !in before;
    } else {
      assert Load(h) !in attempt.calls && Unload(h) !in attempt.calls;
    }
  }

  /** Each image of these trials is loaded at most once, and unloaded once unless the trial that loaded
      it returned Ok. */
  ghost predicate DirectConserved(volumes: seq<Volume>, trials: seq<Trial>, launches: nat -> Launch, handle: nat) {
    var calls := TrialCalls(volumes, trials, launches, handle).0;
    forall h: nat :: ImageSettled(calls, h, ByOkTrial(volumes, trials, launches, handle, h))
  }

  lemma {:induction false} HandlesBelow(volumes: seq<Volume>, trials: seq<Trial>, launches: nat -> Launch, handle: nat)
    ensures var (calls, next) := TrialCalls(volumes, trials, launches, handle);
            forall c :: c in calls ==> c.handle < next
  {
    if trials != [] {
      var last := |trials| - 1;
      var next := TrialCalls(volumes, trials[..last], launches, handle).1;
      HandlesBelow(volumes, trials[..last], launches, handle);
      TrialShape(volumes, trials[last], launches(last), next);
      WellShapedSettled(TrialAttempt(volumes, trials[last], launches(last), next), next);
    }
  }

  /** Whatever the firmware answers, `boot_linux_direct` unloads every image of a trial that failed,
      once, and leaves exactly those of the trials that returned Ok. */
  lemma {:induction false} DirectConserves(volumes: seq<Volume>, trials: seq<Trial>, launches: nat -> Launch,
                                           handle: nat)
    ensures DirectConserved(volumes, trials, launches, handle)
  {
    if trials != [] {
      var last := |trials| - 1;
      var front := trials[..last];
      var (before, next) := TrialCalls(volumes, front, launches, handle);
      var attempt := TrialAttempt(volumes, trials[last], launches(last), next);
      DirectConserves(volumes, front, launches, handle);
      HandlesBelow(volumes, front, launches, handle);
      TrialShape(volumes, trials[last], launches(last), next);
      WellShapedSettled(attempt, next);
      forall h: nat
        ensures ImageSettled(before + attempt.calls, h, ByOkTrial(volumes, trials, launches, handle, h))
      {
        SettledAppend(before, attempt, next, h, ByOkTrial(volumes, front, launches, handle, h));
      }
    }
  }

  /** And these are as many as there were such trials. */
  lemma {:induction false} OneImagePerOkTrial(volumes: seq<Volume>, trials: seq<Trial>, launches: nat -> Launch,
                                              handle: nat)
    ensures StillLoaded(TrialCalls(volumes, trials, launches, handle).0) ==
            OkTrials(volumes, trials, launches, handle)
  {
    if trials != [] {
      var last := |trials| - 1;
      var (before, next) := TrialCalls(volumes, trials[..last], launches, handle);
      var attempt := TrialAttempt(volumes, trials[last], launches(last), next);
      OneImagePerOkTrial(volumes, trials[..last], launches, handle);
      TrialShape(volumes, trials[last], launches(last), next);
      ShapeStillLoaded(attempt, next);
      StillLoadedConcat(before, attempt.calls);
    }
  }
}
