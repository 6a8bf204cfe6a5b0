/** The boot code as it runs: it rewrites the bootnext files of the volumes in place and asks the
    firmware to load, start and unload images. */
module BootMachine {
  import opened Prelude
  import opened Text
  import opened Volumes
  import opened BootEntry
  import opened BootSearch
  import opened BootNext

  /** A call of `boot_os`: its argument, and the disk at that moment. */
  datatype BootCall = BootCall(path: string, disk: seq<Volume>)

  class Machine {
    var volumes: seq<Volume>
    /** The status with which `find_handles` fails, if it does. */
    var discovery: Option<Status>
    var images: seq<ImageCall>
    var nextHandle: nat
    var bootCalls: seq<BootCall>
    var trials: seq<Trial>

    constructor (volumes: seq<Volume>, discovery: Option<Status>)
      ensures this.volumes == volumes && this.discovery == discovery
      ensures images == [] && nextHandle == 0 && bootCalls == [] && trials == []
    {
      this.volumes, this.discovery := volumes, discovery;
      images, nextHandle, bootCalls, trials := [], 0, [], [];
    }

    method LoadImage() returns (handle: nat)
      modifies this`images, this`nextHandle
      ensures handle == old(nextHandle) && nextHandle == handle + 1
      ensures images == old(images) + [Load(handle)]
    {
      handle := nextHandle;
      nextHandle := nextHandle + 1;
      images := images + [Load(handle)];
    }

    method ParseEntryFile(content: string)
      returns (linuxPath: Option<string>, initrdPaths: seq<string>, options: Option<string>)
      ensures Entry(linuxPath, initrdPaths, options) == ParseEntry(content)
    {
      var lines := Lines(content);
      linuxPath, initrdPaths, options := None, [], None;
      for i := 0 to |lines|
        invariant Entry(linuxPath, initrdPaths, options) == ParseLines(EMPTY, lines[..i])
      {
        assert lines[..i + 1][..i] == lines[..i];
        var line := Trim(lines[i]);
        if StartsWith(line, '#') || line == [] {
          continue;
        }
        var parts := Words(line);
        if parts == [] {
          continue;
        }
        var key, value := parts[0], JoinSpace(parts[1..]);
        if value == [] {
          continue;
        }
        if key == "linux" {
          linuxPath := Some(value);
        } else if key == "initrd" {
          initrdPaths := initrdPaths + [value];
        } else if key == "options" {
          options := Some(value);
        }
      }
      assert lines[..|lines|] == lines;
    }

    method AssembleOptions(options: Option<string>, initrdPaths: seq<string>) returns (finalOptions: string)
      ensures finalOptions == CommandLine(if options.Some? then options.value else "", initrdPaths)
    {
      finalOptions := if options.Some? then options.value else "";
      ghost var start := finalOptions;
      for i := 0 to |initrdPaths|
        invariant finalOptions == CommandLine(start, initrdPaths[..i])
      {
        assert initrdPaths[..i + 1][..i] == initrdPaths[..i];
        var winInitrd := Backslashes(initrdPaths[i]);
        if finalOptions != [] {
          finalOptions := finalOptions + " ";
        }
        finalOptions := finalOptions + "initrd=";
        finalOptions := finalOptions + winInitrd;
        assert finalOptions == AddInitrd(CommandLine(start, initrdPaths[..i]), initrdPaths[i]);
      }
      assert initrdPaths[..|initrdPaths|] == initrdPaths;
    }

    method LaunchKernel(options: string, launch: Launch) returns (error: Option<Status>)
      modifies this`images, this`nextHandle
      ensures
        var attempt := LaunchAttempt(options, launch, old(nextHandle));
        && error == attempt.error
        && images == old(images) + attempt.calls
        && nextHandle == NextHandle(old(nextHandle), attempt.calls)
    {
      if launch.load.Some? {
        return launch.load;
      }
      var loadedOs := LoadImage();
      if launch.protocol.Some? {
        images := images + [Unload(loadedOs)];
        return launch.protocol;
      }
      if !IsUcs2(options) {
        images := images + [Unload(loadedOs)];
        return Some(INVALID_PARAMETER);
      }
      images := images + [Start(loadedOs, options)];
      if launch.start.Some? {
        images := images + [Unload(loadedOs)];
        return launch.start;
      }
      return None;
    }

    method BootLinuxFromEntryFile(root: Volume, path: string, launch: Launch) returns (error: Option<Status>)
      modifies this`images, this`nextHandle
      ensures
        var attempt := EntryAttempt(root, path, launch, old(nextHandle));
        && error == attempt.error
        && images == old(images) + attempt.calls
        && nextHandle == NextHandle(old(nextHandle), attempt.calls)
    {
      var file := ReadFile(root, path);
      if file.Err? {
        return Some(file.error);
      }
      if !file.value.Text? {
        return Some(LOAD_ERROR);
      }
      var linuxVal, initrdPaths, options := ParseEntryFile(file.value.text);
      if linuxVal.None? {
        return Some(NOT_FOUND);
      }
      var finalOptions := AssembleOptions(options, initrdPaths);
      var kernel := ReadFile(root, Backslashes(linuxVal.value));
      if kernel.Err? {
        return Some(kernel.error);
      }
      if launch.devicePath.Some? {
        return launch.devicePath;
      }
      error := LaunchKernel(finalOptions, launch);
    }

    /** The body of the loop of `boot_os` for one volume; `error` is set where it continues. */
    method TryVolume(root: Volume, path: string, launch: Launch) returns (error: Option<Status>)
      modifies this`images, this`nextHandle
      ensures
        var attempt := VolumeAttempt(root, path, launch, old(nextHandle));
        && error == attempt.error
        && images == old(images) + attempt.calls
        && nextHandle == NextHandle(old(nextHandle), attempt.calls)
    {
      if !root.opens {
        return Some(NOT_FOUND);
      }
      if IsEntryPath(path) {
        error := BootLinuxFromEntryFile(root, path, launch);
        return;
      }
      var file := ReadFile(root, path);
      if file.Err? {
        return Some(file.error);
      }
      if launch.devicePath.Some? {
        return launch.devicePath;
      }
      if launch.load.Some? {
        return launch.load;
      }
      var loadedOs := LoadImage();
      images := images + [Start(loadedOs, "")];
      if launch.start.Some? {
        images := images + [Unload(loadedOs)];
        return launch.start;
      }
      return None;
    }

    /** One volume of a search that ends with `whole` and the handle `last`; `calls` are its image
        calls so far. */
    method SearchVolume(path: string, launches: nat -> Launch, i: nat, ghost whole: Attempt, ghost last: nat,
                        ghost images0: seq<ImageCall>, ghost calls: seq<ImageCall>)
      returns (error: Option<Status>, ghost calls': seq<ImageCall>)
      requires i < |volumes| && images == images0 + calls
      requires Searching(whole, last, volumes, path, launches, i, nextHandle, calls)
      modifies this`images, this`nextHandle
      ensures images == images0 + calls'
      ensures error.None? ==> whole == Attempt(None, calls') && nextHandle == last
      ensures error.Some? ==> Searching(whole, last, volumes, path, launches, i + 1, nextHandle, calls')
    {
      ghost var attempt := VolumeAttempt(volumes[i], path, launches(i), nextHandle);
      SearchOne(whole, last, volumes, path, launches, i, nextHandle, calls);
      Associate(images0, calls, attempt.calls);
      error := TryVolume(volumes[i], path, launches(i));
      calls' := calls + attempt.calls;
    }

    method SearchVolumes(path: string, launches: nat -> Launch) returns (error: Option<Status>)
      modifies this`images, this`nextHandle
      ensures error == Search(volumes, path, launches, 0, old(nextHandle)).error
      ensures images == old(images) + Search(volumes, path, launches, 0, old(nextHandle)).calls
      ensures nextHandle == HandleAfter(volumes, path, launches, 0, old(nextHandle))
    {
      ghost var whole := Search(volumes, path, launches, 0, nextHandle);
      ghost var last := HandleAfter(volumes, path, launches, 0, nextHandle);
      ghost var calls: seq<ImageCall> := [];
      SearchStart(volumes, path, launches, nextHandle);
      for i := 0 to |volumes|
        invariant images == old(images) + calls
        invariant Searching(whole, last, volumes, path, launches, i, nextHandle, calls)
      {
        error, calls := SearchVolume(path, launches, i, whole, last, old(images), calls);
        if error.None? {
          return None;
        }
      }
      SearchEnd(whole, last, volumes, path, launches, nextHandle, calls);
      return Some(NOT_FOUND);
    }

    method BootOs(path: string, launches: nat -> Launch) returns (error: Option<Status>)
      modifies this`images, this`nextHandle, this`bootCalls
      ensures bootCalls == old(bootCalls) + [BootCall(path, volumes)]
      ensures discovery.Some? ==> error == discovery && images == old(images) && nextHandle == old(nextHandle)
      ensures discovery.None? ==>
                var result := Search(volumes, path, launches, 0, old(nextHandle));
                && error == result.error
                && images == old(images) + result.calls
                && nextHandle == HandleAfter(volumes, path, launches, 0, old(nextHandle))
    {
      bootCalls := bootCalls + [BootCall(path, volumes)];
      if discovery.Some? {
        return discovery;
      }
      error := SearchVolumes(path, launches);
    }

    /** Since the call of `boot_linux_direct`, the image calls are those of the recorded trials. */
    ghost predicate Recorded(images0: seq<ImageCall>, handle0: nat, launches: nat -> Launch)
      reads this
    {
      && images == images0 + TrialCalls(volumes, trials, launches, handle0).0
      && nextHandle == TrialCalls(volumes, trials, launches, handle0).1
    }

    method TryEntry(v: nat, name: string, launches: nat -> Launch, ghost images0: seq<ImageCall>, ghost handle0: nat)
      requires v < |volumes| && Recorded(images0, handle0, launches)
      modifies this`images, this`nextHandle, this`trials
      ensures Recorded(images0, handle0, launches)
      ensures trials == old(trials) + [Trial(v, ENTRIES + name)]
    {
      var path := ENTRIES + name;
      ghost var attempt := EntryAttempt(volumes[v], path, launches(|trials|), nextHandle);
      var error := BootLinuxFromEntryFile(volumes[v], path, launches(|trials|));
      TrialStep(volumes, trials, Trial(v, path), launches, handle0);
      Associate(images0, TrialCalls(volumes, trials, launches, handle0).0, attempt.calls);
      trials := trials + [Trial(v, path)];
    }

    method TryEntries(v: nat, sortedEntries: seq<string>, launches: nat -> Launch,
                      ghost images0: seq<ImageCall>, ghost handle0: nat)
      requires v < |volumes| && Recorded(images0, handle0, launches)
      modifies this`images, this`nextHandle, this`trials
      ensures Recorded(images0, handle0, launches)
      ensures trials == old(trials) + TrialsOf(v, sortedEntries)
    {
      for k := 0 to |sortedEntries|
        invariant Recorded(images0, handle0, launches)
        invariant trials == old(trials) + TrialsOf(v, sortedEntries[..k])
      {
        TryEntry(v, sortedEntries[k], launches, images0, handle0);
        NextTrial(v, sortedEntries, k);
      }
      assert sortedEntries[..|sortedEntries|] == sortedEntries;
    }

    method TryVolumeEntries(v: nat, launches: nat -> Launch, ghost images0: seq<ImageCall>, ghost handle0: nat)
      requires v < |volumes| && Recorded(images0, handle0, launches)
      modifies this`images, this`nextHandle, this`trials
      ensures Recorded(images0, handle0, launches)
      ensures trials == old(trials) + TrialsOf(v, VolumeEntries(volumes[v]))
    {
      if !volumes[v].opens || volumes[v].entries.None? {
        assert trials + [] == trials;
        return;
      }
      var sortedEntries := FallbackLast(ConfNames(volumes[v].entries.value));
      TryEntries(v, sortedEntries, launches, images0, handle0);
    }

    method TryVolumes(launches: nat -> Launch, ghost images0: seq<ImageCall>, ghost handle0: nat)
      requires trials == [] && Recorded(images0, handle0, launches)
      modifies this`images, this`nextHandle, this`trials
      ensures Recorded(images0, handle0, launches)
      ensures trials == DirectOrder(volumes)
    {
      ghost var parts := TrialsByVolume(volumes);
      for v := 0 to |volumes|
        invariant trials == Flatten(parts[..v])
        invariant Recorded(images0, handle0, launches)
      {
        TryVolumeEntries(v, launches, images0, handle0);
        FlattenStep(parts, v);
      }
      assert parts[..|parts|] == parts;
    }

    /** `launches(k)` answers the k-th entry tried. */
    method BootLinuxDirect(launches: nat -> Launch)
      modifies this`images, this`nextHandle, this`trials
      ensures discovery.Some? ==> images == old(images) && nextHandle == old(nextHandle) && trials == []
      ensures discovery.None? ==> trials == DirectOrder(volumes)
      ensures discovery.None? ==> Recorded(old(images), old(nextHandle), launches)
    {
      trials := [];
      if discovery.Some? {
        return;
      }
      assert images + [] == images;
      TryVolumes(launches, images, nextHandle);
    }

    /** Read, pop and rewrite one flag file. */
    method PopFlagFile(v: nat, flagFilename: string) returns (processed: bool, target: Option<string>)
      requires v < |volumes|
      modifies this`volumes
      ensures
        match PopFlag(old(volumes)[v], flagFilename)
        case Untouched => !processed && volumes == old(volumes)
        case Processed(after, popped) => processed && target == popped && volumes == old(volumes)[v := after]
    {
      var root := volumes[v];
      target := None;
      assert volumes[v := root] == volumes;
      if !OpensForWriting(root, flagFilename) {
        return false, None;
      }
      if !root.files[flagFilename].Text? {
        return true, None;
      }
      var lines := ParseQueue(root.files[flagFilename].text);
      // Delete the old file, in either case.
      var files := root.files - {flagFilename};
      if lines != [] {
        target := Some(lines[0]);
        var remaining := lines[1..];
        if remaining != [] {
          var newContent := WriteLines(remaining);
          files := files[flagFilename := Node.Text(newContent)];
          assert files == root.files[flagFilename := Node.Text(newContent)];
        }
      }
      volumes := volumes[v := root.(files := files)];
      return true, target;
    }

    /** The lines joined by CR LF, and a final CR LF. */
    method WriteLines(remaining: seq<string>) returns (newContent: string)
      requires remaining != []
      ensures newContent == Render(remaining)
    {
      newContent := "";
      for i := 0 to |remaining|
        invariant i == 0 ==> newContent == ""
        invariant i > 0 ==> newContent + "\r\n" == Render(remaining[..i])
      {
        assert remaining[..i + 1] == remaining[..i] + [remaining[i]];
        RenderAppend(remaining[..i], remaining[i]);
        if i > 0 {
          newContent := newContent + "\r\n";
        }
        newContent := newContent + remaining[i];
      }
      assert remaining[..|remaining|] == remaining;
      newContent := newContent + "\r\n";
    }

    /** Look for a flag file on one volume. */
    method ProcessVolume(v: nat) returns (processed: bool, target: Option<string>)
      requires v < |volumes|
      modifies this`volumes
      ensures
        match PopVolume(old(volumes)[v])
        case Untouched => !processed && volumes == old(volumes)
        case Processed(after, popped) => processed && target == popped && volumes == old(volumes)[v := after]
    {
      if !volumes[v].opens {
        return false, None;
      }
      processed, target := PopFlagFile(v, ROOT_FLAG);
      if !processed {
        processed, target := PopFlagFile(v, EFI_FLAG);
      }
    }

    /** The disk is brought to its new state first; only then is the popped path booted, so that no
        outcome of that boot, including not returning, can make a line run twice. */
    method CheckAndProcessBootnext(launches: nat -> Launch)
      modifies this`volumes, this`images, this`nextHandle, this`bootCalls
      ensures discovery.Some? ==> unchanged(this)
      ensures discovery.None? ==> volumes == PopDisk(old(volumes)).0
      ensures discovery.None? ==>
                var popped := PopDisk(old(volumes)).1;
                && bootCalls == old(bootCalls) +
                                (if popped.Some? then [BootCall(Backslashes(popped.value), volumes)] else [])
                && images == old(images) +
                             (if popped.Some?
                              then Search(volumes, Backslashes(popped.value), launches, 0, old(nextHandle)).calls
                              else [])
    {
      if discovery.Some? {
        return;
      }
      ghost var disk := volumes;
      PassedNone(disk);
      for v := 0 to |volumes|
        invariant unchanged(this)
        invariant Passed(disk, v)
      {
        var processed, target := ProcessVolume(v);
        if processed {
          StopAt(disk, v);
          if target.Some? {
            var error := BootOs(Backslashes(target.value), launches);
          }
          return;
        }
        PassOne(disk, v);
      }
      assert disk[..|disk|] + [] == disk;
    }

    /** Any number of boots in a row, each of which calls `check_and_process_bootnext`; `launches(k)`
        is the firmware's answer in boot `k`, under which the popped image may well fail. */
    method Reboot(n: nat, launches: nat -> nat -> Launch)
      modifies this`volumes, this`images, this`nextHandle, this`bootCalls
      ensures discovery.None? ==> volumes == DiskAfter(old(volumes), n)
      ensures discovery.None? ==>
                Paths(bootCalls) == Paths(old(bootCalls)) + AllBackslashes(Popped(old(volumes), n))
      ensures discovery.None? && MarkFree(DiskAhead(old(volumes))) ==>
                Paths(bootCalls) <= Paths(old(bootCalls)) + AllBackslashes(Pending(DiskAhead(old(volumes))))
      ensures discovery.Some? ==> volumes == old(volumes) && bootCalls == old(bootCalls)
    {
      ghost var disk, paths := volumes, Paths(bootCalls);
      ghost var done: seq<string> := [];
      assert [] + Popped(disk, n) == Popped(disk, n);
      for k := 0 to n
        invariant discovery.Some? ==> volumes == disk && bootCalls == old(bootCalls)
        invariant discovery.None? ==> DiskAfter(disk, n) == DiskAfter(volumes, n - k)
        invariant discovery.None? ==> Popped(disk, n) == done + Popped(volumes, n - k)
        invariant discovery.None? ==> Paths(bootCalls) == paths + AllBackslashes(done)
      {
        ghost var calls, next, popped := bootCalls, PopDisk(volumes).0, PopDisk(volumes).1;
        NextBoot(volumes, n - k);
        CheckAndProcessBootnext(launches(k));
        if discovery.None? {
          Associate(done, Target(popped), Popped(next, n - k - 1));
          OneMoreCall(paths, calls, bootCalls, done, popped);
          done := done + Target(popped);
        }
      }
      assert done + [] == done;
      if MarkFree(DiskAhead(disk)) {
        EachLinePoppedAtMostOnce(disk, n);
        BackslashesPrefix(Popped(disk, n), Pending(DiskAhead(disk)));
      }
    }
  }

  ghost function Paths(calls: seq<BootCall>): seq<string> {
    seq(|calls|, i requires 0 <= i < |calls| => calls[i].path)
  }

  ghost function AllBackslashes(lines: seq<string>): seq<string> {
    seq(|lines|, i requires 0 <= i < |lines| => Backslashes(lines[i]))
  }

  lemma OneMoreCall(paths: seq<string>, before: seq<BootCall>, after: seq<BootCall>,
                    popped: seq<string>, line: Option<string>)
    requires Paths(before) == paths + AllBackslashes(popped)
    ensures line.None? && after == before ==> Paths(after) == paths + AllBackslashes(popped + Target(line))
    ensures line.Some? && |after| == |before| + 1 && after[..|before|] == before &&
            after[|before|].path == Backslashes(line.value) ==>
              Paths(after) == paths + AllBackslashes(popped + Target(line))
  {
    if line.None? {
      assert popped + Target(line) == popped;
    } else if |after| == |before| + 1 && after[..|before|] == before {
      assert Paths(after) == Paths(before) + [after[|before|].path];
      assert AllBackslashes(popped + Target(line)) == AllBackslashes(popped) + [Backslashes(line.value)];
      Associate(paths, AllBackslashes(popped), [Backslashes(line.value)]);
    }
  }

  lemma BackslashesPrefix(some: seq<string>, all: seq<string>)
    requires some <= all
    ensures AllBackslashes(some) <= AllBackslashes(all)
  {
  }

  lemma NextTrial(v: nat, names: seq<string>, k: nat)
    requires k < |names|
    ensures TrialsOf(v, names[..k + 1]) == TrialsOf(v, names[..k]) + [Trial(v, ENTRIES + names[k])]
  {
  }

  lemma TrialStep(volumes: seq<Volume>, trials: seq<Trial>, trial: Trial, launches: nat -> Launch, handle: nat)
    requires trial.volume < |volumes|
    ensures var (calls, next) := TrialCalls(volumes, trials, launches, handle);
            var attempt := EntryAttempt(volumes[trial.volume], trial.path, launches(|trials|), next);
            TrialCalls(volumes, trials + [trial], launches, handle) ==
            (calls + attempt.calls, NextHandle(next, attempt.calls))
  {
    assert (trials + [trial])[..|trials|] == trials;
  }
}
